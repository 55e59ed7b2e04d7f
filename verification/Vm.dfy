/** Address spaces (vm.c). Sizes are in bytes, addresses in pages; `sp` is the address space whose
    directory is `d`, `held` are frames in the code's hands, and `total` all frames of the account. */
module Vm {
  import opened Words
  import opened Kalloc
  import opened PageTable
  import opened Mmu

  const PGSIZE: nat := 4096
  const KERNBASE: nat := KERNPAGE * PGSIZE

  /** PGROUNDUP, as a page number */
  function PagesUp(sz: nat): (r: nat)
    ensures sz <= r * PGSIZE < sz + PGSIZE
  {
    (sz + PGSIZE - 1) / PGSIZE
  }

  /** The account is in order: every frame in one place, and the address space is what the frames say. */
  ghost predicate Inv(k: Kmem, sp: Space, held: set<nat>, total: set<nat>)
    reads k
  {
    && k.Valid() && Rep(k.pages, sp) && Apart(k.free, sp, held)
    && total == Total(k.free, sp, held) && Range(k.lo, |k.pages|, total)
  }

  /** No frame outside the account changed, and none in `keep`. */
  predicate Framed(a: seq<Page>, b: seq<Page>, keep: set<nat>, total: set<nat>) {
    |a| == |b| && forall f: nat | f < |a| && (f !in total || f in keep) :: b[f] == a[f]
  }

  lemma FramedTrans(a: seq<Page>, b: seq<Page>, c: seq<Page>, keep1: set<nat>, keep2: set<nat>, keep: set<nat>,
           total: set<nat>)
    requires Framed(a, b, keep1, total) && Framed(b, c, keep2, total) && keep <= keep1 && keep <= keep2
    ensures Framed(a, c, keep, total)
  {
  }

  // ---- how many frames it takes ----

  /** Page table `i` is that of one of the `n` pages from `v` on. */
  predicate Spans(i: nat, v: nat, n: nat) {
    n > 0 && v / NPT <= i <= (v + n - 1) / NPT
  }

  /** The page tables of these pages, by directory index. */
  function TablesOf(v: nat, n: nat): set<nat> {
    set i: nat | i < v + n && Spans(i, v, n)
  }

  /** Those of the given page tables that are not there yet. */
  function Lacking(sp: Space, tables: set<nat>): set<nat> {
    tables - sp.tables.Keys
  }

  /** Of `n0` free frames `n1` are left: `pages` became pages, and one each those of the tables that `sp` lacked. */
  predicate Took(n0: nat, n1: nat, pages: nat, sp: Space, w: Space, tables: set<nat>) {
    w.tables.Keys == sp.tables.Keys + tables && n0 == n1 + pages + |Lacking(sp, tables)|
  }

  lemma TookNothing(n: nat, sp: Space)
    ensures Took(n, n, 0, sp, sp, {})
  {
    assert Lacking(sp, {}) == {};
  }

  lemma LackingMore(sp: Space, u: Space, a: set<nat>, b: set<nat>)
    requires u.tables.Keys == sp.tables.Keys + a
    ensures |Lacking(sp, a + b)| == |Lacking(sp, a)| + |Lacking(u, b)|
  {
    assert Lacking(sp, a + b) == Lacking(sp, a) + Lacking(u, b);
    assert Lacking(sp, a) !! Lacking(u, b);
  }

  /** Two steps in a row. */
  lemma TookBoth(n0: nat, n1: nat, n2: nat, p: nat, q: nat, sp: Space, u: Space, w: Space, a: set<nat>, b: set<nat>)
    requires Took(n0, n1, p, sp, u, a) && Took(n1, n2, q, u, w, b)
    ensures Took(n0, n2, p + q, sp, w, a + b)
  {
    LackingMore(sp, u, a, b);
  }

  /** What is too much for the second step is too much for both, and for more. */
  lemma TooMuch(n0: nat, n1: nat, p: nat, q: nat, sp: Space, u: Space, a: set<nat>, b: set<nat>, all: set<nat>)
    requires Took(n0, n1, p, sp, u, a) && n1 < q + |Lacking(u, b)| && a + b <= all
    ensures n0 < p + q + |Lacking(sp, all)|
  {
    LackingMore(sp, u, a, b);
    LackingAll(sp, a + b, all);
  }

  lemma LackingAll(sp: Space, a: set<nat>, b: set<nat>)
    requires a <= b
    ensures |Lacking(sp, a)| <= |Lacking(sp, b)|
  {
    var more := Lacking(sp, b) - Lacking(sp, a);
    assert Lacking(sp, b) == Lacking(sp, a) + more && Lacking(sp, a) !! more;
  }

  lemma TookEnough(n0: nat, n1: nat, p: nat, sp: Space, w: Space, tables: set<nat>)
    requires Took(n0, n1, p, sp, w, tables)
    ensures p + |Lacking(sp, tables)| <= n0
  {
  }

  lemma TablesMore(v: nat, m: nat, n: nat)
    ensures TablesOf(v, m + n) == TablesOf(v, m) + TablesOf(v + m, n)
  {
    var from, all := v + m, m + n;
    forall i: nat
      ensures Spans(i, v, all) <==> Spans(i, v, m) || Spans(i, from, n)
      ensures Spans(i, v, m) ==> i < from
      ensures Spans(i, from, n) ==> i < v + all
    {
      SpansMore(i, v, m, n);
    }
  }

  lemma SpansMore(i: nat, v: nat, m: nat, n: nat)
    ensures Spans(i, v, m + n) <==> Spans(i, v, m) || Spans(i, v + m, n)
  {
    assert m > 0 ==> (v + m) / NPT <= (v + m - 1) / NPT + 1;
  }

  lemma TableOfOne(v: nat)
    ensures TablesOf(v, 0) == {} && TablesOf(v, 1) == {v / NPT}
  {
    assert Spans(v / NPT, v, 1);
  }

  /** From the start of a page table on, so many of them are needed. */
  lemma {:induction false} TablesCount(v: nat, n: nat)
    requires v % NPT == 0
    ensures |TablesOf(v, n)| == (n + NPT - 1) / NPT
  {
    hide TablesOf;
    TableOfOne(v);
    if n > 0 {
      TablesCount(v, n - 1);
      TablesMore(v, n - 1, 1);
      TableOfOne(v + n - 1);
      var i, rest := (v + n - 1) / NPT, TablesOf(v, n - 1);
      InTables(i, v, n - 1);
      LastTable(v, n);
      if i in rest {
        assert rest + {i} == rest;
      }
    }
  }

  lemma LastTable(v: nat, n: nat)
    requires v % NPT == 0 && n > 0
    ensures if Spans((v + n - 1) / NPT, v, n - 1) then (n + NPT - 1) / NPT == (n - 1 + NPT - 1) / NPT
            else (n + NPT - 1) / NPT == (n - 1 + NPT - 1) / NPT + 1
  {
    assert (v + n - 1) / NPT == v / NPT + (n - 1) / NPT;
    if n > 1 { assert (v + (n - 1) - 1) / NPT == v / NPT + (n - 2) / NPT; }
  }

  lemma InTables(i: nat, v: nat, n: nat)
    ensures i in TablesOf(v, n) <==> Spans(i, v, n)
  {
    assert Spans(i, v, n) ==> i < v + n;
  }

  // ---- what the processor sees ----

  /** A page table's word in the directory grants everything; an entry's own flags decide. */
  lemma Granted(frame: nat, flags: nat, user: bool, write: bool)
    requires flags < 4096 && frame < NFRAMES
    ensures Grants(frame * 4096 + flags, user, write) <==> Grants(flags, user, write)
    ensures (frame * 4096 + flags) / 4096 == frame && (frame * 4096 + flags) % 4096 == flags
  {
    assert (frame * 4096 + flags) / 2 == frame * 2048 + flags / 2;
    assert (frame * 4096 + flags) / 4 == frame * 1024 + flags / 4;
  }

  /** The words of the frames, read as the processor does, give every page exactly what its entry says. */
  lemma Translated(pages: seq<Page>, sp: Space, v: nat, user: bool, write: bool)
    requires Rep(pages, sp) && v < NPAGES
    ensures sp.dir < |pages|
    ensures v / NPT in sp.tables ==> pages[sp.dir][v / 1024] == sp.tables[v / NPT] * 4096 + 7
    ensures Translate(pages, sp.dir, v, user, write)
        == if v in sp.entries && Grants(sp.entries[v].flags, user, write) then Some(sp.entries[v].frame) else None
  {
    var i := v / NPT;
    assert pages[sp.dir][i] == if i in sp.tables then TableWord(sp.tables[i]) else 0;
    if i in sp.tables {
      Granted(sp.tables[i], 7, user, write);
      assert TableOK(pages, sp, i);
      SamePage(v, i, v % NPT);
      if v in sp.entries { Granted(sp.entries[v].frame, sp.entries[v].flags, user, write); }
    }
  }

  /** The same for the bytes a program sees. */
  lemma SeenIs(pages: seq<Page>, sp: Space, v: nat, write: bool)
    requires Rep(pages, sp) && v < NPAGES
    ensures sp.dir < |pages|
    ensures Seen(pages, sp.dir, v, write)
        == if v in sp.entries && Grants(sp.entries[v].flags, true, write) && sp.entries[v].frame < |pages|
           then Some(pages[sp.entries[v].frame]) else None
  {
    hide Rep, Translate;
    Translated(pages, sp, v, true, write);
  }

  /** A program sees no difference in a page whose entry and frame stay. */
  lemma SeenKept(a: seq<Page>, b: seq<Page>, sp: Space, w: Space, keep: set<nat>, total: set<nat>, v: nat, write: bool)
    requires Rep(a, sp) && Rep(b, w) && Framed(a, b, keep, total) && v < KERNPAGE
    requires v in w.entries <==> v in sp.entries
    requires v in sp.entries ==> w.entries[v] == sp.entries[v] && (sp.entries[v].frame in keep || sp.entries[v].frame !in total)
    ensures sp.dir < |a| && w.dir < |b| && Seen(b, w.dir, v, write) == Seen(a, sp.dir, v, write)
  {
    hide Rep, Seen;
    SeenIs(a, sp, v, write);
    SeenIs(b, w, v, write);
  }

  /** What allocuvm does to what a program sees. */
  lemma GrownSeen(a: seq<Page>, b: seq<Page>, sp: Space, w: Space, held: set<nat>, total: set<nat>, lo: nat, hi: nat)
    requires Rep(a, sp) && Rep(b, w) && w.dir == sp.dir && Framed(a, b, sp.UserFrames() + held, total)
    requires Grown(b, sp, w, lo, hi) && hi <= KERNPAGE
    ensures sp.dir < |a| && sp.dir < |b|
    ensures forall v: nat, write: bool {:trigger Seen(b, sp.dir, v, write)} | v < KERNPAGE ::
        Seen(b, sp.dir, v, write) == if lo <= v < hi then Some(Filled(0)) else Seen(a, sp.dir, v, write)
    ensures forall v: nat {:trigger b[sp.dir][v / 1024]} | lo <= v < hi :: b[sp.dir][v / 1024] % 8 == 7
  {
    hide Rep, Seen, Framed;
    DirInRange(a, sp);
    DirInRange(b, w);
    forall v: nat, write: bool | v < KERNPAGE
      ensures Seen(b, sp.dir, v, write) == if lo <= v < hi then Some(Filled(0)) else Seen(a, sp.dir, v, write)
    {
      if lo <= v < hi {
        SeenIs(b, w, v, write);
      } else {
        if v in sp.entries { assert sp.entries[v].frame in sp.UserFrames(); }
        SeenKept(a, b, sp, w, sp.UserFrames() + held, total, v, write);
      }
    }
    forall v: nat | lo <= v < hi
      ensures b[sp.dir][v / 1024] % 8 == 7
    {
      Translated(b, w, v, true, true);
    }
  }

  /** What deallocuvm does to what a program sees. */
  lemma UnmappedSeen(a: seq<Page>, b: seq<Page>, sp: Space, w: Space, held: set<nat>, total: set<nat>, lo: nat, hi: nat)
    requires Rep(a, sp) && Rep(b, w) && w.dir == sp.dir && Framed(a, b, w.UserFrames() + held, total)
    requires w.entries == Unmapped(sp.entries, lo, hi)
    ensures sp.dir < |a| && sp.dir < |b|
    ensures forall v: nat, write: bool {:trigger Seen(b, sp.dir, v, write)} | v < KERNPAGE ::
        Seen(b, sp.dir, v, write) == if lo <= v < hi then None else Seen(a, sp.dir, v, write)
  {
    hide Rep, Seen, Framed;
    DirInRange(a, sp);
    DirInRange(b, w);
    forall v: nat, write: bool | v < KERNPAGE
      ensures Seen(b, sp.dir, v, write) == if lo <= v < hi then None else Seen(a, sp.dir, v, write)
    {
      if lo <= v < hi {
        SeenIs(b, w, v, write);
      } else {
        if v in sp.entries { assert v in w.entries && w.entries[v].frame in w.UserFrames(); }
        SeenKept(a, b, sp, w, w.UserFrames() + held, total, v, write);
      }
    }
  }

  /** What a child sees, and its parent. */
  lemma CopiedSeen(a: seq<Page>, b: seq<Page>, parent: Space, child: Space, n: nat)
    requires Rep(a, parent) && Rep(b, child) && Copied(a, b, parent, child, n) && n <= KERNPAGE
    ensures parent.dir < |a| && child.dir < |b|
    ensures forall v: nat, write: bool {:trigger Seen(b, child.dir, v, write)} | v < KERNPAGE ::
        Seen(b, child.dir, v, write) == if v < n then Seen(a, parent.dir, v, write) else None
    ensures forall v: nat {:trigger b[child.dir][v / 1024]} | v < n :: b[child.dir][v / 1024] % 8 == 7
  {
    hide Rep, Seen;
    DirInRange(a, parent);
    DirInRange(b, child);
    forall v: nat, write: bool | v < KERNPAGE
      ensures Seen(b, child.dir, v, write) == if v < n then Seen(a, parent.dir, v, write) else None
    {
      SeenIs(a, parent, v, write);
      SeenIs(b, child, v, write);
    }
    forall v: nat | v < n
      ensures b[child.dir][v / 1024] % 8 == 7
    {
      Translated(b, child, v, true, true);
    }
  }

  // ---- walkpgdir ----

  /** walkpgdir with alloc == 0: the page table for page `v`. */
  method Walk(k: Kmem, d: nat, v: nat, ghost sp: Space) returns (t: Option<nat>)
    requires Rep(k.pages, sp) && sp.dir == d && v < NPAGES
    ensures if v / NPT in sp.tables then t == Some(sp.tables[v / NPT]) && t.value < |k.pages| else t == None
    ensures v in sp.entries ==>
        t.Some? && Present(k.pages[t.value][v % NPT]) && Decode(k.pages[t.value][v % NPT]) == sp.entries[v]
    ensures t.Some? && v !in sp.entries ==> k.pages[t.value][v % NPT] == 0
  {
    var pde := k.pages[d][v / NPT];
    if v / NPT in sp.tables {
      WordDecodes(Entry(sp.tables[v / NPT], PTE_P + PTE_W + PTE_U));
      assert TableOK(k.pages, sp, v / NPT);
      SamePage(v, v / NPT, v % NPT);
      if v in sp.entries { WordDecodes(sp.entries[v]); }
    }
    if Present(pde) {
      t := Some(Decode(pde).frame);
    } else {
      t := None;
    }
  }

  /** walkpgdir with alloc != 0: a missing page table is made. */
  method WalkAlloc(k: Kmem, d: nat, v: nat, ghost sp: Space, ghost held: set<nat>, ghost total: set<nat>)
    returns (t: Option<nat>, ghost w: Space)
    requires Inv(k, sp, held, total) && sp.dir == d && v < NPAGES
    modifies k`free, k`pages
    ensures Inv(k, w, held, total) && w.dir == d && w.entries == sp.entries
    ensures Framed(old(k.pages), k.pages, sp.UserFrames() + held, total)
    ensures if t.Some? then v / NPT in w.tables && w.tables[v / NPT] == t.value < |k.pages|
        else w == sp && old(k.free) == []
    ensures t.Some? ==> d < |k.pages| && k.pages[d][v / 1024] == t.value * 4096 + 7
    ensures if t.Some? then Took(|old(k.free)|, |k.free|, 0, sp, w, {v / NPT})
        else k.free == old(k.free) && |old(k.free)| < |Lacking(sp, {v / NPT})|
  {
    hide Rep, Apart, Elements, Took, Lacking;
    w := sp;
    t := Walk(k, d, v, sp);
    TableThere(|k.free|, sp, v / NPT);
    if t.None? {
      ghost var free := k.free;
      var f := k.Alloc();
      if f.None? { return; }
      TakeHead(f.value, k.free, sp, held);
      DirInRange(k.pages, sp);
      RepNewTable(k.pages, sp, v / NPT, f.value);
      TableApart(f.value, k.free, sp, held + {f.value}, v / NPT);
      assert Framed(k.pages, k.pages[f.value := Filled(0)][d := k.pages[d][v / NPT := TableWord(f.value)]],
          sp.UserFrames() + held, total);
      k.pages := k.pages[f.value := Filled(0)];
      k.pages := k.pages[d := k.pages[d][v / NPT := Entry(f.value, PTE_P + PTE_W + PTE_U).Word()]];
      w := WithTable(sp, v / NPT, f.value);
      TookTable(|free|, |k.free|, sp, v / NPT, f.value);
      t := f;
    }
    Translated(k.pages, w, v, true, true);
  }

  lemma TookTable(n0: nat, n1: nat, sp: Space, i: nat, t: nat)
    requires i !in sp.tables && n0 == n1 + 1
    ensures Took(n0, n1, 0, sp, WithTable(sp, i, t), {i})
  {
    assert Lacking(sp, {i}) == {i};
  }

  lemma TableThere(n: nat, sp: Space, i: nat)
    ensures i in sp.tables ==> Took(n, n, 0, sp, sp, {i})
    ensures i !in sp.tables ==> |Lacking(sp, {i})| == 1
  {
    if i in sp.tables {
      assert Lacking(sp, {i}) == {};
      assert sp.tables.Keys + {i} == sp.tables.Keys;
    } else {
      assert Lacking(sp, {i}) == {i};
    }
  }

  lemma DirInRange(pages: seq<Page>, sp: Space)
    requires Rep(pages, sp)
    ensures sp.Sized() && sp.dir < |pages|
  {
  }

  lemma TakeHead(f: nat, free: seq<nat>, sp: Space, held: set<nat>)
    requires Apart([f] + free, sp, held)
    ensures Apart(free, sp, held + {f}) && Total(free, sp, held + {f}) == Total([f] + free, sp, held)
    ensures sp.dir !in sp.tables.Values && f !in held && f != sp.dir && f !in sp.tables.Values
        && f !in sp.UserFrames() && f in Elements([f] + free)
    ensures held + {f} - {f} == held
    ensures {f, sp.dir} <= Total([f] + free, sp, held) && sp.dir !in sp.UserFrames() + held
  {
    HeadApart(f, free, sp, held);
    ElementsCons(f, free);
  }

  // ---- mappages ----

  /** The entry of page `v` is written into its page table. */
  method SetPte(k: Kmem, t: nat, v: nat, e: Entry, ghost sp: Space, ghost held: set<nat>, ghost total: set<nat>)
    returns (ghost w: Space)
    requires Inv(k, sp, held, total) && v < NPAGES && v !in sp.entries && e.OK()
    requires v / NPT in sp.tables && sp.tables[v / NPT] == t < |k.pages| && (v >= KERNPAGE || e.frame in held)
    modifies k`pages
    ensures Inv(k, w, if v < KERNPAGE then held - {e.frame} else held, total) && w == WithEntry(sp, v, e)
    ensures Framed(old(k.pages), k.pages, sp.UserFrames() + held, total)
  {
    hide Rep, Apart, Elements, Framed;
    w := WithEntry(sp, v, e);
    RepSized(k.pages, sp);
    TablesApart(k.free, sp, held, v / NPT);
    ghost var mid, keep := k.pages, sp.UserFrames() + held;
    RepPte(k.pages, sp, w, v);
    k.pages := k.pages[t := k.pages[t][v % NPT := e.Word()]];
    FramedNothing(mid, keep, total);
    FramedWrite(mid, mid, t, k.pages[t], keep, total);
    if v < KERNPAGE {
      UserApart(k.free, sp, held, v, e);
    } else {
      KernelApart(k.free, sp, held, v, e);
    }
  }

  /** One turn of the loop of mappages: page `v` gets frame `frame`. */
  method MapOne(k: Kmem, d: nat, v: nat, frame: nat, perm: nat, ghost sp: Space, ghost held: set<nat>,
           ghost total: set<nat>)
    returns (ok: bool, ghost w: Space)
    requires Inv(k, sp, held, total) && sp.dir == d && v < NPAGES && v !in sp.entries && frame < NFRAMES && perm < 4096
    requires v >= KERNPAGE || frame in held
    modifies k`free, k`pages
    ensures Inv(k, w, if ok && v < KERNPAGE then held - {frame} else held, total) && w.dir == d
    ensures w.entries == (if ok then sp.entries[v := Entry(frame, WithP(perm))] else sp.entries) && (!ok ==>
        old(k.free) == [])
    ensures if ok then Took(|old(k.free)|, |k.free|, 0, sp, w, {v / NPT})
        else w == sp && k.free == old(k.free) && |old(k.free)| < |Lacking(sp, {v / NPT})|
    ensures Framed(old(k.pages), k.pages, sp.UserFrames() + held, total)
  {
    hide Inv, Framed, Took, Lacking, WithP;
    var t: Option<nat>;
    ghost var u: Space;
    t, u := WalkAlloc(k, d, v, sp, held, total);
    w := u;
    if t.None? {
      return false, w;
    }
    var e := Entry(frame, WithP(perm));
    EntryOK(frame, perm);
    ghost var mid := k.pages;
    w := SetPte(k, t.value, v, e, u, held, total);
    SameFrames(old(k.pages), mid, k.pages, sp, u, held, total);
    SameTables(|old(k.free)|, |k.free|, sp, u, w, {v / NPT});
    ok := true;
  }

  lemma EntryOK(frame: nat, perm: nat)
    requires frame < NFRAMES && perm < 4096
    ensures Entry(frame, WithP(perm)).OK()
  {
  }

  lemma SameFrames(a: seq<Page>, b: seq<Page>, c: seq<Page>, sp: Space, u: Space, held: set<nat>, total: set<nat>)
    requires u.entries == sp.entries && Framed(a, b, sp.UserFrames() + held, total)
    requires Framed(b, c, u.UserFrames() + held, total)
    ensures Framed(a, c, sp.UserFrames() + held, total)
  {
  }

  lemma SameTables(n0: nat, n1: nat, sp: Space, u: Space, w: Space, tables: set<nat>)
    requires Took(n0, n1, 0, sp, u, tables) && w.tables == u.tables
    ensures Took(n0, n1, 0, sp, w, tables)
  {
  }

  lemma RepSized(pages: seq<Page>, sp: Space)
    requires Rep(pages, sp)
    ensures sp.Sized()
  {
  }

  lemma TablesApart(free: seq<nat>, sp: Space, held: set<nat>, i: nat)
    requires Apart(free, sp, held) && i in sp.tables
    ensures sp.Once() && sp.tables[i] in Total(free, sp, held) && sp.tables[i] !in sp.UserFrames() + held
  {
    assert sp.tables[i] in sp.tables.Values;
  }

  lemma FramedWrite(a: seq<Page>, b: seq<Page>, f: nat, p: Page, keep: set<nat>, total: set<nat>)
    requires Framed(a, b, keep, total) && f < |b| && f in total && f !in keep
    ensures Framed(a, b[f := p], keep, total)
  {
  }

  /** `n` more pages from `v` on are mapped, to frames in a row. */
  function Mapped(entries: map<nat, Entry>, v: nat, n: nat, frame: nat, flags: nat): (r: map<nat, Entry>)
    ensures forall x: nat :: x in r <==> x in entries || v <= x < v + n
    ensures forall x: nat {:trigger r[x]} | x in r :: r[x] == if v <= x < v + n then Entry(frame + (x - v),
        flags) else entries[x]
  {
    if n == 0 then entries else Mapped(entries, v, n - 1, frame, flags)[v + n - 1 := Entry(frame + n - 1, flags)]
  }

  /** The frames of the user pages among `m` pages from `v` on. */
  function Given(v: nat, m: nat, frame: nat): set<nat> {
    set f | frame <= f < frame + m && ForUser(v, frame, f)
  }

  predicate ForUser(v: nat, frame: nat, f: nat) {
    v + (f - frame) < KERNPAGE
  }

  /** What is held after `m` pages were mapped. */
  function Left(held: set<nat>, v: nat, m: nat, frame: nat): set<nat> {
    held - Given(v, m, frame)
  }

  /** The frames of user memory and the held ones are `keep`. */
  predicate Keeps(sp: Space, held: set<nat>, keep: set<nat>) {
    sp.UserFrames() + held == keep
  }

  /** A held frame moves into user memory. */
  lemma FramesMove(u: Space, w: Space, held: set<nat>, v: nat, e: Entry, keep: set<nat>)
    requires v !in u.entries && w.entries == u.entries[v := e] && (v < KERNPAGE ==> e.frame in held)
    requires Keeps(u, held, keep)
    ensures Keeps(w, if v < KERNPAGE then held - {e.frame} else held, keep)
  {
    FramesFrom(u, w, {});
    FramesFrom(w, u, {v});
    if v < KERNPAGE { assert v in w.entries && w.entries[v].frame in w.UserFrames(); }
  }

  lemma StillFramed(a: seq<Page>, b: seq<Page>, c: seq<Page>, u: Space, held: set<nat>, keep: set<nat>,
                    total: set<nat>)
    requires Keeps(u, held, keep) && Framed(a, b, keep, total) && Framed(b, c, u.UserFrames() + held, total)
    ensures Framed(a, c, keep, total)
  {
  }

  /** What mappages keeps on its way: `m` pages are mapped, from `v` on, frames are in order, and those that were
      taken from `n0` free ones are the missing page tables. */
  ghost predicate Mapping(k: Kmem, sp: Space, w: Space, held: set<nat>, total: set<nat>, v: nat, m: nat, frame: nat,
                          perm: nat, pages: seq<Page>, n0: nat)
    reads k
  {
    && Inv(k, w, Left(held, v, m, frame), total) && w.dir == sp.dir
    && w.entries == Mapped(sp.entries, v, m, frame, WithP(perm))
    && Keeps(w, Left(held, v, m, frame), sp.UserFrames() + held)
    && Framed(pages, k.pages, sp.UserFrames() + held, total)
    && Took(n0, |k.free|, 0, sp, w, TablesOf(v, m))
  }

  /** One turn of the loop of mappages, as part of the whole of `n` pages. */
  method MapNext(k: Kmem, d: nat, v: nat, n: nat, frame: nat, perm: nat, m: nat, ghost sp: Space, ghost u: Space,
           ghost held: set<nat>, ghost total: set<nat>, ghost pages: seq<Page>, ghost n0: nat)
    returns (ok: bool, ghost w: Space)
    requires Mapping(k, sp, u, held, total, v, m, frame, perm, pages, n0) && sp.dir == d && m < n
    requires v + n <= NPAGES && frame + n <= NFRAMES && perm < 4096 && CanMap(sp, held, v, n, frame)
    modifies k`free, k`pages
    ensures Mapping(k, sp, w, held, total, v, if ok then m + 1 else m, frame, perm, pages, n0)
    ensures !ok ==> n0 < |Lacking(sp, TablesOf(v, n))|
  {
    hide Inv, Framed, WithP, Space.UserFrames, Took, Lacking, Left, Mapped, Keeps, TablesOf, CanMap;
    ghost var left, before, n1 := Left(held, v, m, frame), k.pages, |k.free|;
    CanMapNext(sp, held, v, m, n, frame);
    NextPageFree(sp, u, held, v, m, frame, perm);
    ok, w := MapOne(k, d, v + m, frame + m, perm, u, left, total);
    StillFramed(pages, before, k.pages, u, left, sp.UserFrames() + held, total);
    NextTable(n0, n1, |k.free|, 0, 0, ok, sp, u, w, v, m, n);
    if ok { FramesMove(u, w, left, v + m, Entry(frame + m, WithP(perm)), sp.UserFrames() + held); }
  }

  /** The pages are not mapped yet, and frames for those of user memory are held. */
  ghost predicate CanMap(sp: Space, held: set<nat>, v: nat, n: nat, frame: nat) {
    forall x | v <= x < v + n :: x !in sp.entries && (x < KERNPAGE ==> frame + (x - v) in held)
  }

  lemma CanMapNext(sp: Space, held: set<nat>, v: nat, m: nat, n: nat, frame: nat)
    requires CanMap(sp, held, v, n, frame) && m < n
    ensures v + m !in sp.entries && (v + m < KERNPAGE ==> frame + m in held)
  {
  }

  /** mappages of `n` pages that are not mapped yet (so no "remap" panic), with held frames for those of user
      memory. It fails exactly if there are fewer free frames than missing page tables; then the first `m` pages
      are mapped. */
  method Mappages(k: Kmem, d: nat, v: nat, n: nat, frame: nat, perm: nat, ghost sp: Space, ghost held: set<nat>,
           ghost total: set<nat>)
    returns (ok: bool, ghost w: Space, m: nat)
    requires Inv(k, sp, held, total) && sp.dir == d && 0 < n && v + n <= NPAGES && frame + n <= NFRAMES && perm < 4096
    requires CanMap(sp, held, v, n, frame)
    modifies k`free, k`pages
    ensures Inv(k, w, Left(held, v, m, frame), total) && w.dir == d
    ensures n == 1 || v >= KERNPAGE ==>
        Left(held, v, m, frame) == if ok && v < KERNPAGE then held - {frame} else held
    ensures w.entries == Mapped(sp.entries, v, m, frame, WithP(perm)) && (if ok then m == n else m < n)
    ensures ok <==> |Lacking(sp, TablesOf(v, n))| <= |old(k.free)|
    ensures ok ==> Took(|old(k.free)|, |k.free|, 0, sp, w, TablesOf(v, n))
    ensures Framed(old(k.pages), k.pages, sp.UserFrames() + held, total)
  {
    hide Inv, Framed, WithP, Space.UserFrames, Took, TablesOf, Lacking, Left, Mapped, Keeps, Mapping, CanMap;
    w, m := sp, 0;
    MappingStart(k, sp, held, total, v, frame, perm);
    while true
      invariant m < n && Mapping(k, sp, w, held, total, v, m, frame, perm, old(k.pages), |old(k.free)|)
      decreases n - m
    {
      ok, w := MapNext(k, d, v, n, frame, perm, m, sp, w, held, total, old(k.pages), |old(k.free)|);
      if !ok {
        MappingFacts(k, sp, w, held, total, v, m, frame, perm, old(k.pages), |old(k.free)|);
        return;
      }
      m := m + 1;
      if m == n { break; }
    }
    MappingFacts(k, sp, w, held, total, v, m, frame, perm, old(k.pages), |old(k.free)|);
  }

  lemma MappingStart(k: Kmem, sp: Space, held: set<nat>, total: set<nat>, v: nat, frame: nat, perm: nat)
    requires Inv(k, sp, held, total)
    ensures Mapping(k, sp, sp, held, total, v, 0, frame, perm, k.pages, |k.free|)
  {
    hide Inv, WithP, Space.UserFrames, Took, TablesOf;
    TableOfOne(v);
    TookNothing(|k.free|, sp);
    GivenNothing(held, sp, v, frame, perm);
  }

  lemma MappingFacts(k: Kmem, sp: Space, w: Space, held: set<nat>, total: set<nat>, v: nat, m: nat, frame: nat,
                     perm: nat, pages: seq<Page>, n0: nat)
    requires Mapping(k, sp, w, held, total, v, m, frame, perm, pages, n0)
    ensures Inv(k, w, Left(held, v, m, frame), total) && w.dir == sp.dir
    ensures w.entries == Mapped(sp.entries, v, m, frame, WithP(perm))
    ensures Framed(pages, k.pages, sp.UserFrames() + held, total)
    ensures Took(n0, |k.free|, 0, sp, w, TablesOf(v, m)) && |Lacking(sp, TablesOf(v, m))| <= n0
    ensures m == 0 ==> Left(held, v, m, frame) == held
    ensures m == 1 ==> Left(held, v, m, frame) == if v < KERNPAGE then held - {frame} else held
    ensures v >= KERNPAGE ==> Left(held, v, m, frame) == held
  {
    hide Inv, WithP, Space.UserFrames, Framed, Mapped, Keeps, TablesOf, Lacking;
  }

  lemma GivenNothing(held: set<nat>, sp: Space, v: nat, frame: nat, perm: nat)
    ensures Left(held, v, 0, frame) == held && Mapped(sp.entries, v, 0, frame, WithP(perm)) == sp.entries
  {
  }

  /** Page `v + m` is still to be mapped, and its frame held. */
  lemma NextPageFree(sp: Space, u: Space, held: set<nat>, v: nat, m: nat, frame: nat, perm: nat)
    requires u.entries == Mapped(sp.entries, v, m, frame, WithP(perm))
    requires v + m !in sp.entries && (v + m < KERNPAGE ==> frame + m in held)
    ensures v + m !in u.entries && (v + m < KERNPAGE ==> frame + m in Left(held, v, m, frame))
    ensures Left(held, v, m + 1, frame)
        == if v + m < KERNPAGE then Left(held, v, m, frame) - {frame + m} else Left(held, v, m, frame)
    ensures Mapped(sp.entries, v, m + 1, frame, WithP(perm)) == u.entries[v + m := Entry(frame + m, WithP(perm))]
  {
    hide WithP;
  }

  /** The next of `n` pages: if there is no frame for its table, there are not enough for all. */
  lemma NextTable(n0: nat, n1: nat, n2: nat, p: nat, q: nat, ok: bool, sp: Space, u: Space, w: Space, v: nat, m: nat,
                  n: nat)
    requires Took(n0, n1, p, sp, u, TablesOf(v, m)) && m < n
    requires if ok then Took(n1, n2, q, u, w, {(v + m) / NPT}) else n1 < q + |Lacking(u, {(v + m) / NPT})|
    ensures if ok then Took(n0, n2, p + q, sp, w, TablesOf(v, m + 1)) else n0 < p + q + |Lacking(sp, TablesOf(v, n))|
  {
    hide TablesOf, Took, Lacking;
    TablesMore(v, m, 1);
    TableOfOne(v + m);
    TablesMore(v, m + 1, n - m - 1);
    if ok {
      TookBoth(n0, n1, n2, p, q, sp, u, w, TablesOf(v, m), {(v + m) / NPT});
    } else {
      TooMuch(n0, n1, p, q, sp, u, TablesOf(v, m), {(v + m) / NPT}, TablesOf(v, n));
    }
  }

  lemma FramedNothing(a: seq<Page>, keep: set<nat>, total: set<nat>)
    ensures Framed(a, a, keep, total)
  {
  }

  lemma SameUserFrames(u: Space, w: Space)
    requires forall x: nat | x < KERNPAGE :: (x in u.entries <==> x in w.entries) && (x in u.entries ==>
        u.entries[x] == w.entries[x])
    ensures u.UserFrames() == w.UserFrames()
  {
    FramesFrom(u, w, set x | x in u.entries && x >= KERNPAGE);
    FramesFrom(w, u, set x | x in w.entries && x >= KERNPAGE);
  }

  // ---- deallocuvm and freevm ----

  /** The pages from `lo` to before `hi` are unmapped. */
  function Unmapped(entries: map<nat, Entry>, lo: nat, hi: nat): map<nat, Entry> {
    map v | v in entries && !(lo <= v < hi) :: entries[v]
  }

  /** Page `v` of user memory is unmapped, and its frame freed. */
  method Unmap(k: Kmem, t: nat, v: nat, ghost sp: Space, ghost held: set<nat>, ghost total: set<nat>)
    returns (ghost w: Space)
    requires Inv(k, sp, held, total) && sp.User(v) && v / NPT in sp.tables && sp.tables[v / NPT] == t
    modifies k`free, k`pages
    ensures Inv(k, w, held, total) && w == WithoutEntry(sp, v) && w.UserFrames() <= sp.UserFrames()
    ensures Framed(old(k.pages), k.pages, w.UserFrames() + held, total)
  {
    hide Rep, Apart, Elements, Framed, Space.UserFrames, Decode;
    w := WithoutEntry(sp, v);
    RepSized(k.pages, sp);
    PteIs(k.pages, sp, v);
    var f := Decode(k.pages[t][v % NPT]).frame;
    UnmapHeld(k.free, sp, held, v, k.lo, |k.pages|);
    ghost var a, free := k.pages, k.free;
    var ok := k.Free(f);
    assert ok;
    RepKept(a, k.pages, sp);
    TablesApart(free, sp, held, v / NPT);
    ghost var b := k.pages;
    RepPte(b, sp, w, v);
    k.pages := k.pages[t := k.pages[t][v % NPT := 0]];
    GiveBack(f, free, w, held + {f});
    FramedNothing(a, w.UserFrames() + held, total);
    FramedWrite(a, a, f, b[f], w.UserFrames() + held, total);
    FramedWrite(a, b, t, k.pages[t], w.UserFrames() + held, total);
    assert held + {f} - {f} == held;
  }

  lemma PteIs(pages: seq<Page>, sp: Space, v: nat)
    requires Rep(pages, sp) && v in sp.entries
    ensures v / NPT in sp.tables && sp.tables[v / NPT] < |pages|
        && Decode(pages[sp.tables[v / NPT]][v % NPT]) == sp.entries[v]
  {
    assert TableOK(pages, sp, v / NPT);
    SamePage(v, v / NPT, v % NPT);
    WordDecodes(sp.entries[v]);
  }

  lemma UnmapHeld(free: seq<nat>, sp: Space, held: set<nat>, v: nat, lo: nat, n: nat)
    requires Apart(free, sp, held) && sp.User(v) && Range(lo, n, Total(free, sp, held))
    ensures var w, f := WithoutEntry(sp, v), sp.entries[v].frame;
            && Apart(free, w, held + {f}) && Total(free, w, held + {f}) == Total(free, sp, held)
            && f !in Elements(free) && lo <= f < n && f != sp.dir && f !in sp.tables.Values && f !in held
               && f !in w.UserFrames()
            && w.UserFrames() <= sp.UserFrames()
  {
    UnmapApart(free, sp, held, v);
    assert sp.entries[v].frame in sp.UserFrames();
    FramesFrom(WithoutEntry(sp, v), sp, {});
  }

  /** deallocuvm: the pages from the one behind `newsz` on are unmapped, up to `oldsz`, and their frames freed. */
  method Deallocuvm(k: Kmem, d: nat, oldsz: nat, newsz: nat, ghost sp: Space, ghost held: set<nat>,
           ghost total: set<nat>)
    returns (r: nat, ghost w: Space)
    requires Inv(k, sp, held, total) && sp.dir == d && oldsz <= KERNBASE
    modifies k`free, k`pages
    ensures r == (if newsz >= oldsz then oldsz else newsz)
    ensures Inv(k, w, held, total) && w.dir == d && w.tables == sp.tables
    ensures w.entries == Unmapped(sp.entries, PagesUp(newsz), PagesUp(oldsz))
    ensures Framed(old(k.pages), k.pages, w.UserFrames() + held, total)
    ensures d < |k.pages| && forall v: nat, write: bool {:trigger Seen(k.pages, d, v, write)} | v < KERNPAGE ::
        Seen(k.pages, d, v, write)
        == if PagesUp(newsz) <= v < PagesUp(oldsz) then None else old(Seen(k.pages, d, v, write))
  {
    hide Rep, Apart, Elements, Framed, Seen;
    w := sp;
    DirInRange(k.pages, sp);
    FramedNothing(k.pages, w.UserFrames() + held, total);
    if newsz >= oldsz {
      assert Unmapped(sp.entries, PagesUp(newsz), PagesUp(oldsz)) == sp.entries;
      return oldsz, w;
    }
    var a := PagesUp(newsz);
    ghost var from, to := a, PagesUp(oldsz);
    assert Unmapped(sp.entries, a, a) == sp.entries;
    while a * PGSIZE < oldsz
      invariant Inv(k, w, held, total) && w.dir == d && w.tables == sp.tables
      invariant from <= a && w.entries == Unmapped(sp.entries, from, if a < to then a else to)
      invariant Framed(old(k.pages), k.pages, w.UserFrames() + held, total)
      decreases oldsz - a * PGSIZE
    {
      ghost var u, before, a0 := w, k.pages, a;
      RepSized(k.pages, u);
      var t := Walk(k, d, a, u);
      if t.None? {
        SkipTable(u, a);
        a := (a / NPT + 1) * NPT - 1;
      } else if Present(k.pages[t.value][a % NPT]) {
        w := Unmap(k, t.value, a, u, held, total);
        ghost var keep := w.UserFrames() + held;
        FramedTrans(old(k.pages), before, k.pages, u.UserFrames() + held, keep, keep, total);
      }
      a := a + 1;
      UnmappedMore(sp.entries, u.entries, w.entries, from, a0, if a < to then a else to);
    }
    UnmappedSeen(old(k.pages), k.pages, sp, w, held, total, from, to);
    r := newsz;
  }

  /** A page table that is not there maps nothing. */
  lemma SkipTable(sp: Space, a: nat)
    requires sp.Sized() && a / NPT !in sp.tables
    ensures forall x: nat | a <= x < (a / NPT + 1) * NPT :: x !in sp.entries
  {
    forall x: nat | a <= x < (a / NPT + 1) * NPT
      ensures x / NPT == a / NPT
    {
    }
  }

  lemma UnmappedMore(m: map<nat, Entry>, u: map<nat, Entry>, w: map<nat, Entry>, lo: nat, a: nat, b: nat)
    requires lo <= a < b && u == Unmapped(m, lo, a) && w == u - {a}
    requires forall x: nat | a < x < b :: x !in u
    ensures w == Unmapped(m, lo, b)
  {
  }

  /** The account without an address space. */
  ghost predicate Inv0(k: Kmem, held: set<nat>, total: set<nat>)
    reads k
  {
    && k.Valid() && Elements(k.free) !! held && total == Elements(k.free) + held && Range(k.lo, |k.pages|, total)
  }

  lemma NoUser(sp: Space, w: Space)
    requires w.Sized() && w.entries == Unmapped(sp.entries, PagesUp(0), PagesUp(KERNBASE))
    ensures w.UserFrames() == {}
  {
    assert PagesUp(0) == 0 && PagesUp(KERNBASE) == KERNPAGE;
  }

  /** The words of a directory. */
  predicate DirHas(dir: Page, sp: Space)
    requires sp.Sized()
  {
    forall i: nat | i < NPT :: dir[i] == if i in sp.tables then TableWord(sp.tables[i]) else 0
  }

  lemma DirWords(pages: seq<Page>, sp: Space)
    requires Rep(pages, sp)
    ensures sp.Sized() && sp.dir < |pages| && DirHas(pages[sp.dir], sp)
  {
  }

  lemma DirWord(dir: Page, sp: Space, i: nat)
    requires sp.Sized() && DirHas(dir, sp) && i < NPT
    ensures if i in sp.tables then Present(dir[i]) && Decode(dir[i]).frame == sp.tables[i] else !Present(dir[i])
  {
    if i in sp.tables { WordDecodes(Entry(sp.tables[i], PTE_P + PTE_W + PTE_U)); }
  }

  lemma FramedLess(a: seq<Page>, b: seq<Page>, keep: set<nat>, keep': set<nat>, total: set<nat>)
    requires Framed(a, b, keep, total) && keep' <= keep
    ensures Framed(a, b, keep', total)
  {
  }

  lemma TablesOnly(free: seq<nat>, sp: Space, held: set<nat>, total: set<nat>)
    requires Apart(free, sp, held) && total == Total(free, sp, held) && sp.UserFrames() == {}
    ensures var w := Space(sp.dir, sp.tables, map[]); Apart(free, w, held) && total == Total(free, w, held)
  {
    var w := Space(sp.dir, sp.tables, map[]);
    assert w.UserFrames() == {};
    assert w.Owned() == sp.Owned();
  }

  /** A page table of a space without entries is taken out. */
  lemma TableGone(free: seq<nat>, sp: Space, held: set<nat>, i: nat, total: set<nat>)
    requires Apart(free, sp, held) && total == Total(free, sp, held) && i in sp.tables && sp.entries == map[]
    ensures var w, f := Space(sp.dir, sp.tables - {i}, map[]), sp.tables[i];
            && Apart(free, w, held + {f}) && total == Total(free, w, held + {f})
            && f !in Elements(free) && f in total && f !in held && f != sp.dir
  {
    var w, f := Space(sp.dir, sp.tables - {i}, map[]), sp.tables[i];
    assert f in sp.tables.Values;
    assert w.UserFrames() == {} == sp.UserFrames();
    forall x
      ensures x in w.tables.Values <==> x in sp.tables.Values && x != f
    {
      if x in sp.tables.Values && x != f {
        var j :| j in sp.tables && sp.tables[j] == x;
        assert w.tables[j] == x;
      }
    }
    assert w.Owned() == sp.Owned() - {f};
  }

  lemma DirGone(free: seq<nat>, sp: Space, held: set<nat>, total: set<nat>)
    requires Apart(free, sp, held) && total == Total(free, sp, held) && sp.tables == map[] && sp.entries == map[]
    ensures sp.dir !in Elements(free) && sp.dir !in held && sp.dir in total && Elements(free) !! held
    ensures total == {sp.dir} + Elements(free) + held
  {
    assert sp.UserFrames() == {};
    assert sp.Owned() == {sp.dir};
  }

  /** freevm: every frame of the address space is on the free list, once. */
  method Freevm(k: Kmem, d: nat, ghost sp: Space, ghost held: set<nat>, ghost total: set<nat>)
    requires Inv(k, sp, held, total) && sp.dir == d
    modifies k`free, k`pages
    ensures Inv0(k, held, total) && Framed(old(k.pages), k.pages, held, total)
  {
    hide Rep, Apart, Elements, Framed, Total, DirHas;
    var _, w := Deallocuvm(k, d, KERNBASE, 0, sp, held, total);
    RepSized(k.pages, w);
    NoUser(sp, w);
    DirWords(k.pages, w);
    ghost var dir := k.pages[d];
    FramedLess(old(k.pages), k.pages, w.UserFrames() + held, held, total);
    TablesOnly(k.free, w, held, total);
    var i := 0;
    ghost var left := Space(d, w.tables, map[]);
    while i < NPT
      invariant i <= NPT && k.Valid() && d < |k.pages| && k.pages[d] == dir
          && Framed(old(k.pages), k.pages, held, total)
      invariant left.dir == d && left.entries == map[]
      invariant forall j: nat :: j in left.tables <==> j in w.tables && j >= i
      invariant forall j <- left.tables :: left.tables[j] == w.tables[j]
      invariant Apart(k.free, left, held) && total == Total(k.free, left, held) && Range(k.lo, |k.pages|, total)
    {
      DirWord(dir, w, i);
      if Present(k.pages[d][i]) {
        var f := Decode(k.pages[d][i]).frame;
        TableGone(k.free, left, held, i, total);
        ghost var before, free := k.pages, k.free;
        var ok := k.Free(f);
        assert ok;
        FramedWrite(old(k.pages), before, f, k.pages[f], held, total);
        left := Space(d, left.tables - {i}, map[]);
        GiveBack(f, free, left, held + {f});
        assert held + {f} - {f} == held;
      }
      i := i + 1;
    }
    assert left.tables == map[];
    DirGone(k.free, left, held, total);
    ghost var before, free := k.pages, k.free;
    var ok := k.Free(d);
    assert ok;
    FramedWrite(old(k.pages), before, d, k.pages[d], held, total);
    ElementsCons(d, free);
  }

  // ---- allocuvm ----

  /** From `sp` to `w`, the pages from `lo` to before `hi` were mapped, to zeroed frames. */
  ghost predicate Grown(pages: seq<Page>, sp: Space, w: Space, lo: nat, hi: nat) {
    && (forall x: nat :: x in w.entries <==> x in sp.entries || lo <= x < hi)
    && (forall x <- sp.entries :: w.entries[x] == sp.entries[x])
    && forall x: nat | lo <= x < hi ::
         w.entries[x].flags == PTE_P + PTE_W + PTE_U && w.entries[x].frame < |pages|
             && pages[w.entries[x].frame] == Filled(0)
  }

  lemma Undone(pages: seq<Page>, sp: Space, u: Space, w: Space, lo: nat, a: nat, hi: nat)
    requires Grown(pages, sp, u, lo, a) && w.entries == Unmapped(u.entries, lo, hi) && lo <= a <= hi
    requires forall x | lo <= x < hi :: x !in sp.entries
    ensures w.entries == sp.entries && w.UserFrames() == sp.UserFrames()
  {
    SameUserFrames(w, sp);
  }

  lemma GrownOne(p: seq<Page>, p': seq<Page>, sp: Space, u: Space, w: Space, held: set<nat>, total: set<nat>,
           lo: nat, a: nat, f: nat)
    requires Grown(p, sp, u, lo, a) && lo <= a < KERNPAGE && a !in u.entries
    requires Framed(p, p', u.UserFrames() + held, total) && f < |p'| && p'[f] == Filled(0)
    requires w.entries == u.entries[a := Entry(f, WithP(PTE_W + PTE_U))]
    ensures Grown(p', sp, w, lo, a + 1) && u.UserFrames() <= w.UserFrames()
  {
    FramesFrom(u, w, {});
    forall x: nat | lo <= x < a + 1
      ensures w.entries[x].flags == PTE_P + PTE_W + PTE_U && w.entries[x].frame < |p'|
          && p'[w.entries[x].frame] == Filled(0)
    {
      if x < a {
        assert u.entries[x].frame in u.UserFrames();
      }
    }
  }

  lemma RepOther(pages: seq<Page>, sp: Space, f: nat, p: Page)
    requires Rep(pages, sp) && f < |pages| && f != sp.dir && f !in sp.tables.Values
    ensures Rep(pages[f := p], sp)
  {
    forall t <- sp.tables.Values
      ensures t < |pages|
    {
      var i :| i in sp.tables && sp.tables[i] == t;
      assert TableOK(pages, sp, i);
    }
    RepKept(pages, pages[f := p], sp);
  }

  lemma HeldFacts(free: seq<nat>, sp: Space, held: set<nat>, f: nat)
    requires Apart(free, sp, held) && f in held
    ensures f !in Elements(free) && f != sp.dir && f !in sp.tables.Values && f !in sp.UserFrames()
        && f in Total(free, sp, held)
    ensures sp.dir !in held
  {
  }

  /** kalloc, a page filled with `p`, and mappages. Without success there was no frame for the page, or (`mem`)
      none for its page table. */
  method NewPage(k: Kmem, d: nat, a: nat, p: Page, perm: nat, ghost sp: Space, ghost held: set<nat>,
           ghost total: set<nat>)
    returns (ok: bool, mem: Option<nat>, ghost w: Space)
    requires Inv(k, sp, held, total) && sp.dir == d && a < KERNPAGE && a !in sp.entries && perm < 4096
    modifies k`free, k`pages
    ensures Framed(old(k.pages), k.pages, sp.UserFrames() + held, total) && w.dir == d && (ok ==> mem.Some?)
    ensures mem.None? ==> w == sp && Inv(k, w, held, total)
    ensures mem.Some? && !ok ==>
      w.entries == sp.entries && mem.value !in held && Inv(k, w, held + {mem.value}, total)
    ensures ok ==>
      && w.entries == sp.entries[a := Entry(mem.value, WithP(perm))] && Inv(k, w, held, total)
      && mem.value < |k.pages| && k.pages[mem.value] == p
    ensures if ok then Took(|old(k.free)|, |k.free|, 1, sp, w, {a / NPT})
        else |old(k.free)| < 1 + |Lacking(sp, {a / NPT})|
  {
    hide Rep, Apart, Elements, Framed, Total, WithP, Left, TablesOf, Lacking, Took, CanMap, Mapped;
    ok, w := false, sp;
    ghost var keep, before := sp.UserFrames() + held, k.pages;
    FramedNothing(before, keep, total);
    mem := k.Alloc();
    if mem.None? { return; }
    var f := mem.value;
    TakeHead(f, k.free, sp, held);
    k.pages := k.pages[f := p];
    FramedWrite(before, before, f, p, keep, total);
    RepOther(before, sp, f, p);
    ghost var filled, n1 := k.pages, |k.free|;
    var m;
    CanMapHeld(sp, held, a, f);
    TableOfOne(a);
    OneMapped(sp, a, f, WithP(perm));
    ok, w, m := Mappages(k, d, a, 1, f, perm, sp, held + {f}, total);
    KeptPage(filled, k.pages, sp, held, f, total);
    FramedTrans(before, filled, k.pages, keep, sp.UserFrames() + (held + {f}), keep, total);
    OneMore(|old(k.free)|, n1, |k.free|, ok, sp, w, {a / NPT});
  }

  lemma CanMapHeld(sp: Space, held: set<nat>, a: nat, f: nat)
    requires a !in sp.entries
    ensures CanMap(sp, held + {f}, a, 1, f)
  {
  }

  lemma OneMapped(sp: Space, a: nat, f: nat, flags: nat)
    ensures Mapped(sp.entries, a, 0, f, flags) == sp.entries
    ensures Mapped(sp.entries, a, 1, f, flags) == sp.entries[a := Entry(f, flags)]
  {
  }

  lemma KeptPage(a: seq<Page>, b: seq<Page>, sp: Space, held: set<nat>, f: nat, total: set<nat>)
    requires f < |a| && Framed(a, b, sp.UserFrames() + (held + {f}), total)
    ensures |b| == |a| && b[f] == a[f]
  {
  }

  /** A page besides the page tables. */
  lemma OneMore(n0: nat, n1: nat, n2: nat, ok: bool, sp: Space, w: Space, tables: set<nat>)
    requires n0 == n1 + 1
    requires if ok then Took(n1, n2, 0, sp, w, tables) else n1 < |Lacking(sp, tables)|
    ensures if ok then Took(n0, n2, 1, sp, w, tables) else n0 < 1 + |Lacking(sp, tables)|
  {
  }

  /** How many frames `n` pages from `v` on take: their own, and those of missing page tables. */
  function FramesFor(sp: Space, v: nat, n: nat): nat {
    n + |Lacking(sp, TablesOf(v, n))|
  }

  /** When allocuvm runs out of memory: deallocuvm, and kfree of a frame that is not mapped. */
  method GiveUp(k: Kmem, d: nat, newsz: nat, oldsz: nat, mem: Option<nat>, ghost sp: Space, ghost held: set<nat>,
           ghost total: set<nat>)
    returns (ghost w: Space)
    requires mem.None? ==> Inv(k, sp, held, total)
    requires mem.Some? ==> mem.value !in held && Inv(k, sp, held + {mem.value}, total)
    requires sp.dir == d && newsz <= KERNBASE
    modifies k`free, k`pages
    ensures Inv(k, w, held, total) && w.dir == d && w.entries == Unmapped(sp.entries, PagesUp(oldsz), PagesUp(newsz))
    ensures Framed(old(k.pages), k.pages, w.UserFrames() + held, total)
  {
    hide Rep, Apart, Elements, Framed, Total, Unmapped;
    ghost var has := held + if mem.Some? then {mem.value} else {};
    assert mem.None? ==> has == held;
    var _, w' := Deallocuvm(k, d, newsz, oldsz, sp, has, total);
    w := w';
    ghost var keep := w.UserFrames() + held;
    if mem.Some? {
      var f := mem.value;
      ghost var a, last, list := old(k.pages), k.pages, k.free;
      FramedLess(a, last, w.UserFrames() + has, keep, total);
      HeldFacts(k.free, w, has, f);
      var ok := k.Free(f);
      assert ok;
      RepOther(last, w, f, k.pages[f]);
      GiveBack(f, list, w, has);
      assert has - {f} == held;
      FramedWrite(a, last, f, k.pages[f], keep, total);
    }
  }

  /** allocuvm, when nothing is mapped behind `oldsz` yet. It fails exactly if the size is not allowed or there are
      fewer free frames than it takes; then user memory is as it was. */
  method Allocuvm(k: Kmem, d: nat, oldsz: nat, newsz: nat, ghost sp: Space, ghost held: set<nat>, ghost total: set<nat>)
    returns (r: nat, ghost w: Space)
    requires Inv(k, sp, held, total) && sp.dir == d
    requires forall x | PagesUp(oldsz) <= x < PagesUp(newsz) :: x !in sp.entries
    modifies k`free, k`pages
    ensures Inv(k, w, held, total) && w.dir == d
    ensures newsz >= KERNBASE ==> r == 0
    ensures newsz < KERNBASE && newsz < oldsz ==> r == oldsz
    ensures oldsz <= newsz < KERNBASE ==> PagesUp(oldsz) <= PagesUp(newsz)
    ensures oldsz <= newsz < KERNBASE ==>
      r == if FramesFor(sp, PagesUp(oldsz), PagesUp(newsz) - PagesUp(oldsz)) <= |old(k.free)| then newsz else 0
    ensures if oldsz <= newsz < KERNBASE && r == newsz then Grown(k.pages, sp, w, PagesUp(oldsz), PagesUp(newsz))
            else w.entries == sp.entries
    ensures Framed(old(k.pages), k.pages, sp.UserFrames() + held, total)
    ensures d < |k.pages| && forall v: nat, write: bool {:trigger Seen(k.pages, d, v, write)} | v < KERNPAGE ::
        Seen(k.pages, d, v, write)
        == if oldsz <= newsz < KERNBASE && r == newsz && PagesUp(oldsz) <= v < PagesUp(newsz) then Some(Filled(0))
           else old(Seen(k.pages, d, v, write))
    ensures oldsz <= newsz < KERNBASE && r == newsz ==>
        forall v: nat | PagesUp(oldsz) <= v < PagesUp(newsz) :: k.pages[d][v / 1024] % 8 == 7
  {
    hide Inv, Framed, Took, TablesOf, Lacking, Grown, Seen, Rep;
    w := sp;
    InvRep(k, sp, held, total);
    ghost var keep := sp.UserFrames() + held;
    FramedNothing(k.pages, keep, total);
    if newsz >= KERNBASE {
      return 0, w;
    }
    if newsz < oldsz {
      return oldsz, w;
    }
    var a := PagesUp(oldsz);
    ghost var from, to := a, PagesUp(newsz);
    UpTo(oldsz, newsz);
    GrownNothing(|k.free|, k.pages, sp, from);
    while a * PGSIZE < newsz
      invariant Inv(k, w, held, total) && w.dir == d && from <= a <= to
      invariant Grown(k.pages, sp, w, from, a) && sp.UserFrames() <= w.UserFrames()
      invariant Framed(old(k.pages), k.pages, keep, total)
      invariant Took(|old(k.free)|, |k.free|, a - from, sp, w, TablesOf(from, a - from))
      decreases newsz - a * PGSIZE
    {
      ghost var u, before, n1 := w, k.pages, |k.free|;
      NotGrown(before, sp, u, from, a, to);
      var ok, mem;
      ok, mem, w := NewPage(k, d, a, Filled(0), PTE_W + PTE_U, u, held, total);
      NextTable(|old(k.free)|, n1, |k.free|, a - from, 1, ok, sp, u, w, from, a - from, to - from);
      FramedTrans(old(k.pages), before, k.pages, keep, u.UserFrames() + held, keep, total);
      if !ok {
        ghost var v, mid := w, k.pages;
        w := GiveUp(k, d, newsz, oldsz, mem, v, held, total);
        Undone(before, sp, u, w, from, a, to);
        FramedTrans(old(k.pages), mid, k.pages, keep, w.UserFrames() + held, keep, total);
        InvRep(k, w, held, total);
        GrownBack(k.pages, sp, w);
        GrownSeen(old(k.pages), k.pages, sp, w, held, total, 0, 0);
        return 0, w;
      }
      GrownOne(before, k.pages, sp, u, w, held, total, from, a, mem.value);
      a := a + 1;
    }
    TookEnough(|old(k.free)|, |k.free|, to - from, sp, w, TablesOf(from, to - from));
    InvRep(k, w, held, total);
    GrownSeen(old(k.pages), k.pages, sp, w, held, total, from, to);
    r := newsz;
  }

  lemma UpTo(oldsz: nat, newsz: nat)
    requires oldsz <= newsz
    ensures PagesUp(oldsz) <= PagesUp(newsz)
  {
  }

  lemma GrownNothing(n: nat, pages: seq<Page>, sp: Space, from: nat)
    ensures Grown(pages, sp, sp, from, from) && Took(n, n, 0, sp, sp, TablesOf(from, 0))
  {
    TookNothing(n, sp);
    TableOfOne(from);
  }

  lemma NotGrown(pages: seq<Page>, sp: Space, u: Space, from: nat, a: nat, to: nat)
    requires Grown(pages, sp, u, from, a) && from <= a < to && forall x | from <= x < to :: x !in sp.entries
    ensures a !in u.entries
  {
  }

  lemma InvRep(k: Kmem, sp: Space, held: set<nat>, total: set<nat>)
    requires Inv(k, sp, held, total)
    ensures Rep(k.pages, sp) && sp.dir < |k.pages|
  {
  }

  lemma GrownBack(pages: seq<Page>, sp: Space, w: Space)
    requires w.entries == sp.entries
    ensures Grown(pages, sp, w, 0, 0)
  {
  }

  // ---- setupkvm ----

  /** A line of the table kmap, in pages and frames. */
  datatype Kmap = Kmap(virt: nat, pages: nat, phys: nat, perm: nat) {
    predicate Covers(v: nat) {
      virt <= v < virt + pages
    }

    predicate OK() {
      0 < pages && KERNPAGE <= virt && virt + pages <= NPAGES && phys + pages <= NFRAMES && perm < 4096
    }
  }

  predicate KmapOK(ks: seq<Kmap>) {
    && (forall i | 0 <= i < |ks| :: ks[i].OK())
    && forall i, j | 0 <= i < j < |ks| :: ks[i].virt + ks[i].pages <= ks[j].virt
  }

  /** The table as it is, for a kernel whose data starts at page `data`. */
  function KernelMap(data: nat): seq<Kmap>
    requires 0x8_0100 < data < 0x8_E000
  {
    [Kmap(0x8_0000, 0x100, 0, PTE_W), Kmap(0x8_0100, data - 0x8_0100, 0x100, 0),
     Kmap(data, 0x8_E000 - data, data - KERNPAGE, PTE_W), Kmap(0xF_E000, 0x2000, 0xF_E000, PTE_W)]
  }

  lemma KernelMapOK(data: nat)
    requires 0x8_0100 < data < 0x8_E000
    ensures KmapOK(KernelMap(data))
  {
  }

  /** The kernel's part of an address space: the first `n` lines of the table, and no more. */
  ghost predicate KernelPart(sp: Space, ks: seq<Kmap>, n: nat)
    requires n <= |ks|
  {
    && (forall v <- sp.entries | v >= KERNPAGE :: exists i | 0 <= i < n :: ks[i].Covers(v))
    && (forall i, v: nat | 0 <= i < n && ks[i].Covers(v) ::
          v in sp.entries && sp.entries[v] == Entry(ks[i].phys + (v - ks[i].virt), WithP(ks[i].perm)))
  }

  lemma KernelMore(sp: Space, w: Space, ks: seq<Kmap>, n: nat)
    requires KmapOK(ks) && n < |ks| && KernelPart(sp, ks, n)
    requires w.entries == Mapped(sp.entries, ks[n].virt, ks[n].pages, ks[n].phys, WithP(ks[n].perm))
    ensures KernelPart(w, ks, n + 1)
  {
    hide WithP;
    forall v <- w.entries | v >= KERNPAGE
      ensures exists i | 0 <= i < n + 1 :: ks[i].Covers(v)
    {
      if ks[n].Covers(v) {
      } else {
        var i :| 0 <= i < n && ks[i].Covers(v);
      }
    }
  }

  lemma KernelFresh(sp: Space, ks: seq<Kmap>, n: nat, held: set<nat>)
    requires KmapOK(ks) && n < |ks| && KernelPart(sp, ks, n)
    ensures CanMap(sp, held, ks[n].virt, ks[n].pages, ks[n].phys)
  {
    assert ks[n].OK();
    forall x | ks[n].virt <= x < ks[n].virt + ks[n].pages
      ensures x !in sp.entries
    {
      assert forall i | 0 <= i < n :: !ks[i].Covers(x);
    }
  }

  lemma EmptySpace(pages: seq<Page>, d: nat, free: seq<nat>, held: set<nat>)
    requires Distinct([d] + free) && Elements([d] + free) !! held && d < |pages| && d < NFRAMES
    ensures var sp := Space(d, map[], map[]);
            && Rep(pages[d := Filled(0)], sp) && Apart(free, sp, held)
            && Total(free, sp, held) == Elements([d] + free) + held && d in Total(free, sp, held) && d !in held
  {
    var sp := Space(d, map[], map[]);
    DistinctTail(d, free);
    ElementsCons(d, free);
    assert sp.UserFrames() == {};
    assert sp.Owned() == {d};
  }

  /** The page tables for the first `n` lines of the table. */
  function KernelTables(ks: seq<Kmap>, n: nat): set<nat>
    requires n <= |ks|
  {
    if n == 0 then {} else KernelTables(ks, n - 1) + TablesOf(ks[n - 1].virt, ks[n - 1].pages)
  }

  lemma {:induction false} KernelTablesGrow(ks: seq<Kmap>, m: nat, n: nat)
    requires m <= n <= |ks|
    ensures KernelTables(ks, m) <= KernelTables(ks, n)
  {
    if m < n { KernelTablesGrow(ks, m, n - 1); }
  }

  /** How many frames a space with the kernel's part takes: the directory and the page tables. */
  function KernelFrames(ks: seq<Kmap>): nat {
    1 + |KernelTables(ks, |ks|)|
  }

  /** The table as it is takes 65 frames. */
  lemma ShippedFrames(data: nat)
    requires 0x8_0100 < data < 0x8_E000
    ensures KernelFrames(KernelMap(data)) == 65
  {
    hide TablesOf;
    var ks := KernelMap(data);
    var low, high := TablesOf(0x8_0000, 0xE000), TablesOf(0xF_E000, 0x2000);
    TablesMore(0x8_0000, 0x100, data - 0x8_0100);
    TablesMore(0x8_0000, data - 0x8_0000, 0x8_E000 - data);
    FourLines(ks);
    assert KernelTables(ks, 4) == low + high;
    TablesCount(0x8_0000, 0xE000);
    TablesCount(0xF_E000, 0x2000);
    forall i: nat
      ensures !(i in low && i in high)
    {
      InTables(i, 0x8_0000, 0xE000);
      InTables(i, 0xF_E000, 0x2000);
    }
    assert low !! high;
  }

  lemma FourLines(ks: seq<Kmap>)
    requires |ks| == 4
    ensures KernelTables(ks, 4) == TablesOf(ks[0].virt, ks[0].pages) + TablesOf(ks[1].virt, ks[1].pages)
                                   + TablesOf(ks[2].virt, ks[2].pages) + TablesOf(ks[3].virt, ks[3].pages)
  {
    hide TablesOf;
    assert KernelTables(ks, 2) == KernelTables(ks, 1) + TablesOf(ks[1].virt, ks[1].pages);
    assert KernelTables(ks, 1) == KernelTables(ks, 0) + TablesOf(ks[0].virt, ks[0].pages);
  }

  lemma NextLine(n0: nat, n1: nat, n2: nat, ok: bool, sp: Space, u: Space, w: Space, ks: seq<Kmap>, i: nat)
    requires i < |ks| && sp.tables == map[] && Took(n0, n1, 0, sp, u, KernelTables(ks, i))
    requires ok <==> |Lacking(u, TablesOf(ks[i].virt, ks[i].pages))| <= n1
    requires ok ==> Took(n1, n2, 0, u, w, TablesOf(ks[i].virt, ks[i].pages))
    ensures ok ==> Took(n0, n2, 0, sp, w, KernelTables(ks, i + 1))
    ensures !ok ==> n0 < |KernelTables(ks, |ks|)|
  {
    hide TablesOf, Took, Lacking;
    var a, b, all := KernelTables(ks, i), TablesOf(ks[i].virt, ks[i].pages), KernelTables(ks, |ks|);
    KernelTablesGrow(ks, i + 1, |ks|);
    if ok {
      TookBoth(n0, n1, n2, 0, 0, sp, u, w, a, b);
    } else {
      TooMuch(n0, n1, 0, 0, sp, u, a, b, all);
      LackingAllOf(sp, all);
    }
  }

  lemma LackingAllOf(sp: Space, tables: set<nat>)
    requires sp.tables == map[]
    ensures Lacking(sp, tables) == tables
  {
  }

  /** setupkvm: a new address space with the kernel's part only; or, exactly if there are fewer free frames than
      that takes, everything as it was. */
  method Setupkvm(k: Kmem, ks: seq<Kmap>, ghost held: set<nat>, ghost total: set<nat>)
    returns (d: Option<nat>, ghost w: Space)
    requires Inv0(k, held, total) && KmapOK(ks)
    modifies k`free, k`pages
    ensures d.Some? <==> KernelFrames(ks) <= |old(k.free)|
    ensures d.None? ==> Inv0(k, held, total)
    ensures d.Some? ==>
      && Inv(k, w, held, total) && w.dir == d.value
      && KernelPart(w, ks, |ks|) && (forall v <- w.entries :: v >= KERNPAGE)
      && w.tables.Keys == KernelTables(ks, |ks|) && |k.free| + KernelFrames(ks) == |old(k.free)|
    ensures Framed(old(k.pages), k.pages, held, total)
  {
    hide Rep, Apart, Elements, Framed, Total, KernelPart, WithP, TablesOf, Building, KernelTables;
    FramedNothing(k.pages, held, total);
    ghost var a := k.pages;
    d := k.Alloc();
    w := Space(0, map[], map[]);
    if d.None? { return; }
    EmptySpace(k.pages, d.value, k.free, held);
    k.pages := k.pages[d.value := Filled(0)];
    FramedWrite(a, a, d.value, Filled(0), held, total);
    w := Space(d.value, map[], map[]);
    ghost var empty, n0 := w, |k.free|;
    BuildingStart(k, a, w, held, total, ks);
    for i := 0 to |ks|
      invariant w.dir == d.value && Building(k, a, empty, w, held, total, ks, i, n0)
    {
      var ok;
      ok, w := MapLine(k, d.value, ks, i, a, empty, w, held, total, n0);
      if !ok {
        ghost var mid := k.pages;
        Freevm(k, d.value, w, held, total);
        FramedTrans(a, mid, k.pages, held, held, held, total);
        d := None;
        return;
      }
    }
    BuildingEnd(k, a, empty, w, held, total, ks, n0);
  }

  /** What setupkvm keeps on its way, `i` lines being mapped. */
  ghost predicate Building(k: Kmem, a: seq<Page>, empty: Space, w: Space, held: set<nat>, total: set<nat>,
                           ks: seq<Kmap>, i: nat, n0: nat)
    requires i <= |ks|
    reads k
  {
    && Inv(k, w, held, total) && KernelPart(w, ks, i) && (forall v <- w.entries :: v >= KERNPAGE)
    && Framed(a, k.pages, held, total) && Took(n0, |k.free|, 0, empty, w, KernelTables(ks, i))
  }

  /** One turn of setupkvm's loop. */
  method MapLine(k: Kmem, d: nat, ks: seq<Kmap>, i: nat, ghost a: seq<Page>, ghost empty: Space, ghost u: Space,
           ghost held: set<nat>, ghost total: set<nat>, ghost n0: nat)
    returns (ok: bool, ghost w: Space)
    requires KmapOK(ks) && i < |ks| && Building(k, a, empty, u, held, total, ks, i, n0)
    requires u.dir == d && empty.tables == map[]
    modifies k`free, k`pages
    ensures w.dir == d && Inv(k, w, held, total) && Framed(a, k.pages, held, total)
    ensures if ok then Building(k, a, empty, w, held, total, ks, i + 1, n0) else n0 < |KernelTables(ks, |ks|)|
  {
    hide Inv, Framed, KernelPart, WithP, Left, TablesOf, Lacking, Took, CanMap, KernelTables;
    ghost var before, n1 := k.pages, |k.free|;
    KernelFresh(u, ks, i, held);
    assert ks[i].OK();
    var m;
    ok, w, m := Mappages(k, d, ks[i].virt, ks[i].pages, ks[i].phys, ks[i].perm, u, held, total);
    NextLine(n0, n1, |k.free|, ok, empty, u, w, ks, i);
    FramedTrans(a, before, k.pages, held, u.UserFrames() + held, held, total);
    if ok { KernelMore(u, w, ks, i); }
  }

  lemma BuildingStart(k: Kmem, a: seq<Page>, w: Space, held: set<nat>, total: set<nat>, ks: seq<Kmap>)
    requires Inv(k, w, held, total) && w.entries == map[] && w.tables == map[] && Framed(a, k.pages, held, total)
    ensures Building(k, a, w, w, held, total, ks, 0, |k.free|)
  {
    hide Inv, Framed;
    TookNothing(|k.free|, w);
    NoKernel(w, ks);
  }

  lemma BuildingEnd(k: Kmem, a: seq<Page>, empty: Space, w: Space, held: set<nat>, total: set<nat>, ks: seq<Kmap>,
                    n0: nat)
    requires Building(k, a, empty, w, held, total, ks, |ks|, n0) && empty.tables == map[]
    ensures Inv(k, w, held, total) && KernelPart(w, ks, |ks|) && (forall v <- w.entries :: v >= KERNPAGE)
    ensures Framed(a, k.pages, held, total) && w.tables.Keys == KernelTables(ks, |ks|)
    ensures n0 == |k.free| + |KernelTables(ks, |ks|)|
  {
    hide Inv, Framed, KernelPart, KernelTables;
    TookKernel(n0, |k.free|, empty, w, ks);
  }

  lemma TookKernel(n0: nat, n1: nat, sp: Space, w: Space, ks: seq<Kmap>)
    requires Took(n0, n1, 0, sp, w, KernelTables(ks, |ks|)) && sp.tables == map[]
    ensures w.tables.Keys == KernelTables(ks, |ks|) && n0 == n1 + |KernelTables(ks, |ks|)|
  {
    hide KernelTables;
    LackingAllOf(sp, KernelTables(ks, |ks|));
  }

  lemma NoKernel(sp: Space, ks: seq<Kmap>)
    requires sp.entries == map[]
    ensures KernelPart(sp, ks, 0)
  {
  }

  /** A program sees nothing of the kernel's part, if no line of the table lets it. */
  lemma KernelUnseen(pages: seq<Page>, sp: Space, ks: seq<Kmap>, v: nat, write: bool)
    requires Rep(pages, sp) && KernelPart(sp, ks, |ks|) && KERNPAGE <= v < NPAGES
    requires forall i | 0 <= i < |ks| :: ks[i].OK() && ks[i].perm / 4 % 2 == 0
    ensures sp.dir < |pages| && Seen(pages, sp.dir, v, write) == None
  {
    hide Rep, Seen, Grants;
    SeenIs(pages, sp, v, write);
    if v in sp.entries {
      var i :| 0 <= i < |ks| && ks[i].Covers(v);
      NotGranted(ks[i].perm, write);
    }
  }

  lemma NotGranted(perm: nat, write: bool)
    requires perm < 4096 && perm / 4 % 2 == 0
    ensures WithP(perm) < TWO32 && !Grants(WithP(perm), true, write)
  {
  }

  /** With the table as it is, the kernel finds physical memory behind KERNBASE and the devices at the end, both
      where they are, and writes everywhere but to its own text; a program gets at none of it. */
  lemma KernelSees(pages: seq<Page>, sp: Space, data: nat, v: nat, user: bool, write: bool)
    requires 0x8_0100 < data < 0x8_E000 && Rep(pages, sp) && KernelPart(sp, KernelMap(data), 4)
    requires 0x8_0000 <= v < 0x10_0000
    ensures sp.dir < |pages| && Translate(pages, sp.dir, v, user, write)
        == if user || (write && 0x8_0100 <= v < data) then None
           else if v < 0x8_E000 then Some(v - 0x8_0000) else if v >= 0xF_E000 then Some(v) else None
  {
    hide Rep;
    var ks := KernelMap(data);
    Translated(pages, sp, v, user, write);
    assert ks[0].Covers(v) || ks[1].Covers(v) || ks[2].Covers(v) || ks[3].Covers(v) || 0x8_E000 <= v < 0xF_E000;
  }

  // ---- copyuvm ----

  /** The first `n` pages of the child map frames with the same bytes, by the same flags, as the parent's; no
      other page of user memory is mapped. */
  ghost predicate Copied(pages: seq<Page>, pages': seq<Page>, parent: Space, child: Space, n: nat) {
    && (forall x: nat | x < KERNPAGE :: x in child.entries <==> x < n)
    && forall x: nat | x < n ::
         && x in parent.entries && x in child.entries && child.entries[x].flags == parent.entries[x].flags
         && parent.entries[x].frame < |pages| && child.entries[x].frame < |pages'|
         && pages'[child.entries[x].frame] == pages[parent.entries[x].frame]
  }

  /** The child's memory, and a frame that did not get into it, are given back. */
  method Discard(k: Kmem, d: nat, mem: Option<nat>, ghost sp: Space, ghost held: set<nat>, ghost total: set<nat>)
    requires mem.None? ==> Inv(k, sp, held, total)
    requires mem.Some? ==> mem.value !in held && Inv(k, sp, held + {mem.value}, total)
    requires sp.dir == d
    modifies k`free, k`pages
    ensures Inv0(k, held, total) && Framed(old(k.pages), k.pages, held, total)
  {
    hide Rep, Apart, Elements, Framed, Total;
    ghost var a := k.pages;
    FramedNothing(a, held, total);
    if mem.Some? {
      var f := mem.value;
      ghost var list := k.free;
      HeldFacts(k.free, sp, held + {f}, f);
      var freed := k.Free(f);
      assert freed;
      RepOther(a, sp, f, k.pages[f]);
      GiveBack(f, list, sp, held + {f});
      assert held + {f} - {f} == held;
      FramedWrite(a, a, f, k.pages[f], held, total);
    }
    ghost var b := k.pages;
    Freevm(k, d, sp, held, total);
    FramedTrans(a, b, k.pages, held, held, held, total);
  }

  /** How many frames a copy takes: those of the kernel's part, one for each page, and one for each of their
      page tables. */
  function CopyFrames(ks: seq<Kmap>, n: nat): nat {
    KernelFrames(ks) + n + |TablesOf(0, n)|
  }

  /** copyuvm: a copy of the parent's memory for a child, all of whose frames come from the free list; or, exactly
      if there are fewer free frames than that takes, all frames back on the free list. The parent does not
      change. */
  method Copyuvm(k: Kmem, p: nat, sz: nat, ks: seq<Kmap>, ghost parent: Space, ghost held: set<nat>,
           ghost total: set<nat>)
    returns (d: Option<nat>, ghost w: Space)
    requires Inv0(k, held, total) && KmapOK(ks) && sz <= KERNBASE
    requires Rep(k.pages, parent) && parent.dir == p && parent.Owned() !! total
    requires forall x: nat | x < PagesUp(sz) :: x in parent.entries && parent.entries[x].frame < |k.pages|
    modifies k`free, k`pages
    ensures d.Some? <==> CopyFrames(ks, PagesUp(sz)) <= |old(k.free)|
    ensures d.None? ==> Inv0(k, held, total)
    ensures d.Some? ==>
      && Inv(k, w, held, total) && w.dir == d.value && KernelPart(w, ks, |ks|)
      && Copied(old(k.pages), k.pages, parent, w, PagesUp(sz))
      && |k.free| + CopyFrames(ks, PagesUp(sz)) == |old(k.free)|
    ensures Framed(old(k.pages), k.pages, held, total) && Rep(k.pages, parent)
    ensures d.Some? ==> d.value < |k.pages| && p < |old(k.pages)|
    ensures d.Some? ==> forall v: nat, write: bool {:trigger Seen(k.pages, d.value, v, write)} | v < KERNPAGE ::
        Seen(k.pages, d.value, v, write) == if v < PagesUp(sz) then Seen(old(k.pages), p, v, write) else None
    ensures d.Some? ==> forall v: nat | v < PagesUp(sz) :: k.pages[d.value][v / 1024] % 8 == 7
  {
    hide Seen, Rep, Framed, KernelPart, Copied, TablesOf, KernelFrames, KernelTables, Inv, Inv0, Copying;
    ghost var a, n := k.pages, PagesUp(sz);
    d, w := Setupkvm(k, ks, held, total);
    ParentKept(a, k.pages, parent, held, total);
    if d.None? { return; }
    ghost var kern, n0 := w, |k.free|;
    CopyingStart(k, a, parent, kern, held, total, ks);
    var i := 0;
    while i * PGSIZE < sz
      invariant i <= n && w.dir == d.value && Copying(k, a, parent, kern, w, held, total, i, ks, n0)
      decreases sz - i * PGSIZE
    {
      var ok, mem;
      ok, mem, w := CopyNext(k, p, d.value, i, n, a, parent, kern, w, held, total, ks, n0);
      if !ok {
        ghost var last := k.pages;
        Discard(k, d.value, mem, w, held, total);
        FramedTrans(a, last, k.pages, held, held, held, total);
        ParentKept(a, k.pages, parent, held, total);
        CopyFramesAre(ks, kern, n);
        return None, w;
      }
      i := i + 1;
    }
    CopyingEnd(k, a, parent, kern, w, held, total, n, ks, n0);
    CopyFramesAre(ks, kern, n);
    InvRep(k, w, held, total);
    CopiedSeen(a, k.pages, parent, w, n);
  }

  /** What copyuvm keeps on its way, `i` pages being copied. */
  ghost predicate Copying(k: Kmem, a: seq<Page>, parent: Space, kern: Space, w: Space, held: set<nat>, total: set<nat>,
                          i: nat, ks: seq<Kmap>, n0: nat)
    reads k
  {
    && Inv(k, w, held, total) && KernelPart(w, ks, |ks|) && Copied(a, k.pages, parent, w, i)
    && Took(n0, |k.free|, i, kern, w, TablesOf(0, i))
    && Framed(a, k.pages, held, total) && Rep(a, parent) && Rep(k.pages, parent)
  }

  /** One turn of copyuvm's loop. */
  method CopyNext(k: Kmem, p: nat, d: nat, i: nat, ghost n: nat, ghost a: seq<Page>, ghost parent: Space,
           ghost kern: Space, ghost u: Space, ghost held: set<nat>, ghost total: set<nat>, ghost ks: seq<Kmap>,
           ghost n0: nat)
    returns (ok: bool, mem: Option<nat>, ghost w: Space)
    requires Copying(k, a, parent, kern, u, held, total, i, ks, n0) && u.dir == d && i < n && KmapOK(ks)
    requires parent.dir == p && parent.Owned() !! total && i < KERNPAGE
    requires i in parent.entries && parent.entries[i].frame < |a|
    modifies k`free, k`pages
    ensures w.dir == d && Framed(a, k.pages, held, total) && Rep(k.pages, parent)
    ensures ok ==> Copying(k, a, parent, kern, w, held, total, i + 1, ks, n0)
    ensures !ok ==> n0 < n + |Lacking(kern, TablesOf(0, n))|
    ensures mem.None? ==> !ok && Inv(k, w, held, total)
    ensures mem.Some? && !ok ==> mem.value !in held && Inv(k, w, held + {mem.value}, total)
  {
    hide Rep, Framed, KernelPart, Copied, TablesOf, Lacking, Took, Inv;
    ghost var before, n1 := k.pages, |k.free|;
    var t := Walk(k, p, i, parent);
    var e := Decode(k.pages[t.value][i % NPT]);
    RepSized(k.pages, parent);
    NextPage(a, before, parent, u, held, total, i);
    ok, mem, w := NewPage(k, d, i, k.pages[e.frame], e.flags, u, held, total);
    NextTable(n0, n1, |k.free|, i, 1, ok, kern, u, w, 0, i, n);
    FramedTrans(a, before, k.pages, held, u.UserFrames() + held, held, total);
    ParentKept(a, k.pages, parent, held, total);
    if ok {
      CopiedMore(a, before, k.pages, parent, u, w, held, total, i, mem.value);
      KernelSame(u, w, ks);
    }
  }

  lemma CopyingStart(k: Kmem, a: seq<Page>, parent: Space, w: Space, held: set<nat>, total: set<nat>, ks: seq<Kmap>)
    requires Inv(k, w, held, total) && KernelPart(w, ks, |ks|) && Framed(a, k.pages, held, total)
    requires Rep(a, parent) && Rep(k.pages, parent) && forall v <- w.entries :: v >= KERNPAGE
    ensures Copying(k, a, parent, w, w, held, total, 0, ks, |k.free|)
  {
    hide Rep, Framed, KernelPart, Inv;
    TookNothing(|k.free|, w);
    TableOfOne(0);
  }

  lemma CopyingEnd(k: Kmem, a: seq<Page>, parent: Space, kern: Space, w: Space, held: set<nat>, total: set<nat>,
                   n: nat, ks: seq<Kmap>, n0: nat)
    requires Copying(k, a, parent, kern, w, held, total, n, ks, n0)
    ensures Inv(k, w, held, total) && KernelPart(w, ks, |ks|) && Copied(a, k.pages, parent, w, n)
    ensures Framed(a, k.pages, held, total) && Rep(k.pages, parent)
    ensures n0 == |k.free| + n + |Lacking(kern, TablesOf(0, n))|
  {
    hide Rep, Framed, KernelPart, Inv, Copied;
  }

  lemma CopyFramesAre(ks: seq<Kmap>, kern: Space, n: nat)
    requires KmapOK(ks) && kern.tables.Keys == KernelTables(ks, |ks|) && n <= KERNPAGE
    ensures CopyFrames(ks, n) == KernelFrames(ks) + n + |Lacking(kern, TablesOf(0, n))|
  {
    OnlyKernel(kern, ks, n);
  }

  /** The tables of user memory are not those of the kernel's part. */
  lemma OnlyKernel(sp: Space, ks: seq<Kmap>, n: nat)
    requires KmapOK(ks) && sp.tables.Keys == KernelTables(ks, |ks|) && n <= KERNPAGE
    ensures Lacking(sp, TablesOf(0, n)) == TablesOf(0, n)
  {
    HighTables(ks, |ks|);
    assert forall i <- TablesOf(0, n) :: i < KERNPAGE / NPT;
  }

  lemma {:induction false} HighTables(ks: seq<Kmap>, n: nat)
    requires KmapOK(ks) && n <= |ks|
    ensures forall i <- KernelTables(ks, n) :: i >= KERNPAGE / NPT
  {
    if n > 0 {
      HighTables(ks, n - 1);
      assert ks[n - 1].OK();
    }
  }

  lemma ParentKept(a: seq<Page>, b: seq<Page>, parent: Space, held: set<nat>, total: set<nat>)
    requires Rep(a, parent) && parent.Owned() !! total && Framed(a, b, held, total)
    ensures Rep(b, parent)
  {
  }

  /** The next page: not mapped in the child, mapped in the parent, to a frame outside the account. */
  lemma NextPage(a: seq<Page>, b: seq<Page>, parent: Space, u: Space, held: set<nat>, total: set<nat>, i: nat)
    requires Copied(a, b, parent, u, i) && i < KERNPAGE && Framed(a, b, held, total) && parent.Owned() !! total
    requires parent.Sized() && i in parent.entries && parent.entries[i].frame < |a|
    ensures |a| == |b| && i !in u.entries && b[parent.entries[i].frame] == a[parent.entries[i].frame]
        && parent.entries[i].frame !in total
    ensures parent.entries[i].flags < 4096 && WithP(parent.entries[i].flags) == parent.entries[i].flags
  {
    assert parent.entries[i].frame in parent.UserFrames();
  }

  lemma CopiedMore(a: seq<Page>, b: seq<Page>, c: seq<Page>, parent: Space, u: Space, w: Space, held: set<nat>,
                   total: set<nat>, i: nat, f: nat)
    requires Copied(a, b, parent, u, i) && i < KERNPAGE && i in parent.entries && parent.entries[i].frame < |a|
    requires Framed(b, c, u.UserFrames() + held, total) && f < |c| && c[f] == a[parent.entries[i].frame]
    requires w.entries == u.entries[i := Entry(f, parent.entries[i].flags)]
    ensures Copied(a, c, parent, w, i + 1)
  {
    forall x: nat | x < i + 1
      ensures x in w.entries && x in parent.entries && w.entries[x].flags == parent.entries[x].flags
      ensures w.entries[x].frame < |c| && parent.entries[x].frame < |a|
          && c[w.entries[x].frame] == a[parent.entries[x].frame]
    {
      if x < i {
        assert u.entries[x].frame in u.UserFrames();
      }
    }
  }

  lemma KernelSame(sp: Space, w: Space, ks: seq<Kmap>)
    requires KmapOK(ks) && KernelPart(sp, ks, |ks|)
    requires forall x: nat | x >= KERNPAGE :: (x in sp.entries <==> x in w.entries) && (x in sp.entries ==>
        w.entries[x] == sp.entries[x])
    ensures KernelPart(w, ks, |ks|)
  {
    forall i, v: nat | 0 <= i < |ks| && ks[i].Covers(v)
      ensures v in w.entries && w.entries[v] == Entry(ks[i].phys + (v - ks[i].virt), WithP(ks[i].perm))
    {
      assert ks[i].OK();
    }
  }
}
