/** The user-level allocator (umalloc.c): a circular, address-ordered free list that coalesces.
    Addresses are byte addresses; a header takes UNIT bytes, and sizes count headers. */
module Umalloc {
  import opened Words

  const UNIT: nat := 8

  // ---- sums of sizes ----

  ghost function Units(s: set<nat>, size: map<nat, nat>): nat
    requires s <= size.Keys
  {
    if s == {} then 0 else
      var x :| x in s;
      size[x] + Units(s - {x}, size)
  }

  lemma {:induction false} UnitsTake(s: set<nat>, size: map<nat, nat>, x: nat)
    requires s <= size.Keys && x in s
    ensures Units(s, size) == size[x] + Units(s - {x}, size)
  {
    var y :| y in s && Units(s, size) == size[y] + Units(s - {y}, size);
    if y != x {
      UnitsTake(s - {y}, size, x);
      UnitsTake(s - {x}, size, y);
      assert s - {y} - {x} == s - {x} - {y};
    }
  }

  lemma {:induction false} UnitsSame(s: set<nat>, size: map<nat, nat>, size': map<nat, nat>)
    requires s <= size.Keys && s <= size'.Keys && forall x <- s :: size'[x] == size[x]
    ensures Units(s, size') == Units(s, size)
  {
    if s != {} {
      var x :| x in s;
      UnitsTake(s, size, x);
      UnitsTake(s, size', x);
      UnitsSame(s - {x}, size, size');
    }
  }

  /** Block `y` is added to the sum, or taken out of block `x`, or both. */
  lemma UnitsMove(s: set<nat>, t: set<nat>, size: map<nat, nat>, size': map<nat, nat>, x: nat, y: nat)
    requires s <= size.Keys && t <= size'.Keys && x in s && y !in s && t == s + {y}
    requires forall z <- s - {x} :: size'[z] == size[z]
    ensures Units(t, size') == Units(s, size) - size[x] + size'[x] + size'[y]
  {
    UnitsTake(s, size, x);
    UnitsTake(t, size', y);
    assert t - {y} == s;
    UnitsTake(s, size', x);
    UnitsSame(s - {x}, size, size');
  }

  // ---- the state ----

  /** Behind `p` comes `q`: the next one in address order, or `base` behind the last one. */
  predicate Follows(free: set<nat>, p: nat, q: nat, base: nat) {
    q in free && if q > p then forall r <- free :: !(p < r < q) else q == base && forall r <- free :: r <= p
  }

  lemma FollowsInsert(free: set<nat>, p: nat, q: nat, bp: nat, base: nat)
    requires p in free && Follows(free, p, q, base) && p < bp && (bp < q || q <= p)
    ensures bp !in free && Follows(free + {bp}, p, bp, base) && Follows(free + {bp}, bp, q, base)
    ensures forall r, n | r in free && r != p && Follows(free, r, n, base) :: Follows(free + {bp}, r, n, base)
  {
  }

  lemma FollowsDelete(free: set<nat>, p: nat, q: nat, n: nat, base: nat)
    requires p in free && Follows(free, p, q, base) && base <= p < q && Follows(free, q, n, base)
    ensures Follows(free - {q}, p, n, base)
    ensures forall r, m | r in free && r != p && r != q && Follows(free, r, m, base) ::
        m != q && Follows(free - {q}, r, m, base)
  {
  }

  /** `free` are the free blocks and the header `base`; `next` and `size` are the fields of the headers;
      `live` are the blocks in the program's hands; `got` is how many units came from sbrk. */
  datatype State = State(free: set<nat>, next: map<nat, nat>, size: map<nat, nat>, live: set<nat>, brk: nat, got: nat) {
    /** All headers are there. */
    predicate Sized() {
      free <= next.Keys && free <= size.Keys && live <= size.Keys
    }

    function End(h: nat): nat
      requires h in size
    {
      h + UNIT * size[h]
    }

    /** Address `a` lies in a free block. */
    predicate IsFree(a: nat)
      requires Sized()
    {
      exists p <- free :: p <= a < End(p)
    }

    /** The list is one cycle in address order, with exactly one descent. */
    predicate Linked(base: nat)
      requires Sized()
    {
      base in free && forall p <- free {:trigger next[p]} :: Follows(free, p, next[p], base)
    }

    /** Free blocks do not overlap. */
    predicate Ordered(base: nat)
      requires Sized()
    {
      && base in free && size[base] == 0
      && (forall p <- free | p != base :: size[p] > 0 && base + UNIT <= p && End(p) <= brk)
      && (forall p <- free, q <- free | p < q :: End(p) <= q)
    }

    predicate LiveOK(base: nat)
      requires Sized()
    {
      && (forall h <- live :: size[h] > 0 && base + UNIT <= h && End(h) <= brk)
      && (forall p <- free, h <- live :: p != h && (p < h ==> End(p) <= h) && (h < p ==> End(h) <= p))
      && (forall g <- live, h <- live | g < h :: End(g) <= h)
    }

    /** All but coalescing: the ring is in order, no two blocks overlap, and no unit was lost. */
    ghost predicate Sound(base: nat) {
      Sized() && Linked(base) && Ordered(base) && LiveOK(base) && Units(free + live, size) == got
    }

    /** Free block `x` ends where free block `y` begins. */
    predicate Touches(base: nat, x: nat, y: nat)
      requires Sized()
    {
      x in free && y in free && x != base && End(x) == y
    }

    ghost predicate Coalesced(base: nat)
      requires Sized()
    {
      forall x, y :: !Touches(base, x, y)
    }

    ghost predicate OK(base: nat) {
      Sound(base) && Coalesced(base)
    }
  }

  // ---- free ----

  /** The block `bp` belongs between `p` and what comes behind `p`. */
  predicate Behind(s: State, p: nat, bp: nat) {
    p in s.free && p in s.next && p < bp && (bp < s.next[p] || s.next[p] <= p)
  }

  /** The live block `bp` is linked into the ring behind `p`. */
  function Inserted(s: State, p: nat, bp: nat): State
    requires p in s.next
  {
    s.(free := s.free + {bp}, next := s.next[bp := s.next[p]][p := bp], live := s.live - {bp})
  }

  /** Free block `p` swallows the next one. */
  function Merged(s: State, p: nat): State
    requires p in s.next && p in s.size && s.next[p] in s.next && s.next[p] in s.size
  {
    var q := s.next[p];
    s.(free := s.free - {q}, next := s.next[p := s.next[q]], size := s.size[p := s.size[p] + s.size[q]])
  }

  lemma InsertedLinked(s: State, base: nat, p: nat, bp: nat)
    requires s.Sized() && s.Linked(base) && bp in s.live && Behind(s, p, bp)
    ensures Inserted(s, p, bp).Sized() && Inserted(s, p, bp).Linked(base)
  {
    FollowsInsert(s.free, p, s.next[p], bp, base);
    hide Follows;
  }

  lemma InsertedOrdered(s: State, base: nat, p: nat, bp: nat)
    requires s.Sized() && s.Ordered(base) && s.LiveOK(base) && bp in s.live && p in s.free
    ensures Inserted(s, p, bp).Sized() && Inserted(s, p, bp).Ordered(base)
  {
  }

  lemma InsertedLive(s: State, base: nat, p: nat, bp: nat)
    requires s.Sized() && s.Ordered(base) && s.LiveOK(base) && bp in s.live && p in s.free
    ensures Inserted(s, p, bp).Sized() && Inserted(s, p, bp).LiveOK(base)
  {
    hide State.Ordered;
  }

  lemma InsertedSound(s: State, base: nat, p: nat, bp: nat)
    requires s.Sound(base) && bp in s.live && Behind(s, p, bp)
    ensures Inserted(s, p, bp).Sound(base)
  {
    hide State.Linked, State.Ordered, State.LiveOK;
    InsertedLinked(s, base, p, bp);
    InsertedOrdered(s, base, p, bp);
    InsertedLive(s, base, p, bp);
    var t := Inserted(s, p, bp);
    assert t.free + t.live == s.free + s.live;
  }

  lemma InsertedFree(s: State, base: nat, p: nat, bp: nat, a: nat)
    requires s.Sized() && bp in s.live && p in s.free
    ensures Inserted(s, p, bp).Sized()
    ensures Inserted(s, p, bp).IsFree(a) <==> s.IsFree(a) || bp <= a < s.End(bp)
  {
  }

  lemma MergedLinked(s: State, base: nat, p: nat)
    requires s.Sized() && s.Linked(base) && p in s.free && s.next[p] > p && base <= p
    ensures Merged(s, p).Sized() && Merged(s, p).Linked(base)
  {
    var q := s.next[p];
    assert Follows(s.free, p, q, base);
    FollowsDelete(s.free, p, q, s.next[q], base);
    hide Follows;
  }

  lemma MergedOrdered(s: State, base: nat, p: nat)
    requires s.Sized() && s.Ordered(base) && p in s.free && p != base && s.next[p] in s.free
        && s.End(p) == s.next[p]
    ensures Merged(s, p).Sized() && Merged(s, p).Ordered(base)
  {
  }

  lemma MergedLive(s: State, base: nat, p: nat)
    requires s.Sized() && s.Ordered(base) && s.LiveOK(base) && p in s.free && p != base && s.next[p] in s.free
        && s.End(p) == s.next[p]
    ensures Merged(s, p).Sized() && Merged(s, p).LiveOK(base)
  {
  }

  lemma MergedSound(s: State, base: nat, p: nat)
    requires s.Sound(base) && p in s.free && p != base && s.End(p) == s.next[p]
    ensures Merged(s, p).Sound(base)
  {
    hide State.Linked, State.Ordered, State.LiveOK;
    NextFacts(s, base, p);
    var q, t := s.next[p], Merged(s, p);
    MergedLinked(s, base, p);
    MergedOrdered(s, base, p);
    MergedLive(s, base, p);
    assert t.free + t.live == s.free + s.live - {q};
    UnitsMove(t.free + t.live, s.free + s.live, t.size, s.size, p, q);
  }

  lemma MergedFree(s: State, base: nat, p: nat, a: nat)
    requires s.Sized() && p in s.free && s.next[p] in s.free && s.End(p) == s.next[p] > p
    ensures Merged(s, p).Sized()
    ensures Merged(s, p).IsFree(a) <==> s.IsFree(a)
  {
    var q, t := s.next[p], Merged(s, p);
    assert t.End(p) == s.End(q) && p in t.free;
    assert forall r <- t.free :: r != p ==> t.End(r) == s.End(r);
  }

  lemma InsertedTouches(s: State, base: nat, p: nat, bp: nat)
    requires s.OK(base) && bp in s.live && Behind(s, p, bp)
    ensures Inserted(s, p, bp).Sized()
    ensures forall x, y :: Inserted(s, p, bp).Touches(base, x, y) ==> (x == p && y == bp) || (x == bp && y == s.next[p])
  {
    hide State.Linked, Follows;
    InsertedOrdered(s, base, p, bp);
    InsertedLinked(s, base, p, bp);
    var t := Inserted(s, p, bp);
    if bp in t.free && t.Touches(base, bp, s.End(bp)) {
      NextTouches(t, base, bp);
    }
    forall x, y | t.Touches(base, x, y)
      ensures (x == p && y == bp) || (x == bp && y == s.next[p])
    {
      assert !s.Touches(base, x, y);
      if y == bp {
        BeforeTouches(t, base, p, x);
      }
    }
  }

  /** A block touches only what comes behind it. */
  lemma NextTouches(t: State, base: nat, x: nat)
    requires t.Sized() && t.Linked(base) && t.Ordered(base) && x in t.size && t.Touches(base, x, t.End(x))
    ensures t.next[x] == t.End(x)
  {
    assert Follows(t.free, x, t.next[x], base);
  }

  /** Only the block before `next[p]` touches it. */
  lemma BeforeTouches(t: State, base: nat, p: nat, x: nat)
    requires t.Sized() && t.Linked(base) && t.Ordered(base) && p in t.free && t.next[p] > p
        && t.Touches(base, x, t.next[p])
    ensures x == p
  {
    assert Follows(t.free, p, t.next[p], base);
  }

  lemma MergedTouches(s: State, base: nat, p: nat, x: nat, y: nat)
    requires s.Sound(base) && p in s.free && p != base && s.End(p) == s.next[p]
    ensures Merged(s, p).Sized()
    ensures Merged(s, p).Touches(base, x, y) ==> s.Touches(base, if x == p then s.next[p] else x, y) && y != s.next[p]
  {
    hide State.Linked, State.LiveOK;
    NextFacts(s, base, p);
  }

  /** What free makes of the state, when `bp` belongs behind `p`. */
  function FreedNext(s: State, p: nat, bp: nat): State
    requires s.Sized() && p in s.free && bp in s.live && s.next[p] in s.free
  {
    if s.End(bp) == s.next[p] then Merged(Inserted(s, p, bp), bp) else Inserted(s, p, bp)
  }

  function Freed(s: State, p: nat, bp: nat): State
    requires s.Sized() && p in s.free && bp in s.live && s.next[p] in s.free && p != bp && s.next[p] != bp
  {
    if s.End(p) == bp then Merged(FreedNext(s, p, bp), p) else FreedNext(s, p, bp)
  }

  /** A freed block is free, nothing else is, and what was coalesced still is. */
  ghost predicate FreedTo(s: State, t: State, bp: nat, base: nat) {
    && s.Sized() && bp in s.live && t.OK(base) && t.live == s.live - {bp} && t.brk == s.brk && t.got == s.got
    && (forall h <- t.live :: t.size[h] == s.size[h])
    && forall a: nat :: t.IsFree(a) <==> s.IsFree(a) || bp <= a < s.End(bp)
  }

  lemma FreedNextOK(s: State, base: nat, p: nat, bp: nat)
    requires s.OK(base) && bp in s.live && Behind(s, p, bp)
    ensures s.next[p] in s.free && FreedNext(s, p, bp).Sound(base)
    ensures var t := FreedNext(s, p, bp);
            && p in t.free && t.next[p] == bp && bp in t.free && t.size[bp] >= s.size[bp]
               && t.live == s.live - {bp} && t.brk == s.brk && t.got == s.got
            && (forall h <- t.live + {p} :: h in t.size && t.size[h] == s.size[h])
            && (forall a: nat :: t.IsFree(a) <==> s.IsFree(a) || bp <= a < s.End(bp))
            && (forall x, y :: t.Touches(base, x, y) ==> x == p && y == bp)
  {
    hide State.Linked, State.Ordered, State.LiveOK, State.Coalesced, State.IsFree, Follows;
    NextFacts(s, base, p);
    InsertedSound(s, base, p, bp);
    InsertedTouches(s, base, p, bp);
    var u := Inserted(s, p, bp);
    NextFacts(u, base, bp);
    forall a: nat
      ensures FreedNext(s, p, bp).Sized()
      ensures FreedNext(s, p, bp).IsFree(a) <==> s.IsFree(a) || bp <= a < s.End(bp)
    {
      InsertedFree(s, base, p, bp, a);
      if s.End(bp) == s.next[p] { MergedFree(u, base, bp, a); }
    }
    if s.End(bp) == s.next[p] {
      MergedSound(u, base, bp);
      forall x, y | FreedNext(s, p, bp).Touches(base, x, y)
        ensures x == p && y == bp
      {
        MergedTouches(u, base, bp, x, y);
      }
    }
  }

  lemma NextFacts(s: State, base: nat, p: nat)
    requires s.Sound(base) && p in s.free
    ensures p in s.next && p in s.size && s.next[p] in s.free && s.next[p] in s.next && s.next[p] in s.size
    ensures s.next[p] !in s.live && p !in s.live && base <= p && base in s.free && base !in s.live
    ensures if p == base then s.size[p] == 0 else s.size[p] > 0
    ensures s.next[p] > p || s.next[p] == base
  {
    assert Follows(s.free, p, s.next[p], base);
  }

  lemma FreedOK(s: State, base: nat, p: nat, bp: nat)
    requires s.OK(base) && bp in s.live && Behind(s, p, bp)
    ensures s.next[p] in s.free && p != bp && s.next[p] != bp && FreedTo(s, Freed(s, p, bp), bp, base)
        && p in Freed(s, p, bp).free
    ensures exists q <- Freed(s, p, bp).free :: Freed(s, p, bp).size[q] >= s.size[bp]
  {
    hide State.Linked, State.Ordered, State.LiveOK, State.IsFree, Follows, FreedNext;
    FreedNextOK(s, base, p, bp);
    NextFacts(s, base, p);
    var u := FreedNext(s, p, bp);
    NextFacts(u, base, p);
    if s.End(p) == bp {
      MergedSound(u, base, p);
      var t := Merged(u, p);
      forall a: nat
        ensures t.IsFree(a) <==> u.IsFree(a)
      {
        MergedFree(u, base, p, a);
      }
      forall x, y
        ensures !t.Touches(base, x, y)
      {
        MergedTouches(u, base, p, x, y);
      }
    }
  }

  // ---- malloc ----

  /** The free block behind `prev` is handed out whole. */
  function Taken(s: State, prev: nat): State
    requires prev in s.next && s.next[prev] in s.next
  {
    var p := s.next[prev];
    s.(free := s.free - {p}, next := s.next[prev := s.next[p]], live := s.live + {p})
  }

  /** The last `n` units of free block `p` are handed out. */
  function Carved(s: State, p: nat, n: nat): State
    requires p in s.size && n < s.size[p]
  {
    var q := p + UNIT * (s.size[p] - n);
    s.(size := s.size[p := s.size[p] - n][q := n], live := s.live + {q})
  }

  /** sbrk gave `nu` units at `hp`. */
  function WithCore(s: State, hp: nat, nu: nat): State {
    s.(size := s.size[hp := nu], live := s.live + {hp}, brk := hp + UNIT * nu, got := s.got + nu)
  }

  /** The `n` units at `b` were free, and they are in the program's hands now. */
  ghost predicate HandedOut(s: State, t: State, b: nat, n: nat, base: nat) {
    && s.Sized() && t.OK(base) && b !in s.live && t.live == s.live + {b} && t.size[b] == n && t.brk == s.brk
       && t.got == s.got
    && (forall h <- s.live :: t.size[h] == s.size[h])
    && (forall a: nat :: b <= a < b + UNIT * n ==> s.IsFree(a))
    && forall a: nat :: t.IsFree(a) <==> s.IsFree(a) && !(b <= a < b + UNIT * n)
  }

  lemma TakenOrdered(s: State, base: nat, prev: nat)
    requires s.Sized() && s.Ordered(base) && s.LiveOK(base) && prev in s.free && s.next[prev] in s.free
        && s.next[prev] != base
    ensures Taken(s, prev).Sized() && Taken(s, prev).Ordered(base) && Taken(s, prev).LiveOK(base)
  {
    var t, p := Taken(s, prev), s.next[prev];
    assert t.Ordered(base);
    forall q <- t.free
      ensures p != q && (q < p ==> s.End(q) <= p) && (p < q ==> s.End(p) <= q)
    {
    }
    hide State.Ordered;
  }

  lemma TakenLinked(s: State, base: nat, prev: nat)
    requires s.Sized() && s.Linked(base) && prev in s.free && base <= prev < s.next[prev]
    ensures s.next[prev] in s.next && Taken(s, prev).Sized() && Taken(s, prev).Linked(base)
  {
    var p := s.next[prev];
    assert Follows(s.free, prev, p, base);
    FollowsDelete(s.free, prev, p, s.next[p], base);
    hide Follows;
  }

  lemma TakenFree(s: State, base: nat, prev: nat, a: nat)
    requires s.Sized() && s.Ordered(base) && prev in s.free && s.next[prev] in s.free && s.next[prev] != base
    ensures Taken(s, prev).Sized()
    ensures Taken(s, prev).IsFree(a) <==> s.IsFree(a) && !(s.next[prev] <= a < s.End(s.next[prev]))
  {
    var t, p := Taken(s, prev), s.next[prev];
    if t.IsFree(a) {
      var r :| r in t.free && r <= a < t.End(r);
      assert r < p || p < r;
    }
    if s.IsFree(a) && !(p <= a < s.End(p)) {
      var r :| r in s.free && r <= a < s.End(r);
      assert r in t.free && t.End(r) == s.End(r);
    }
  }

  lemma TakenOK(s: State, base: nat, prev: nat)
    requires s.OK(base) && prev in s.free && prev in s.next && s.next[prev] in s.size && s.size[s.next[prev]] > 0
    ensures s.next[prev] in s.next && HandedOut(s, Taken(s, prev), s.next[prev], s.size[s.next[prev]], base)
  {
    hide State.Linked, State.Ordered, State.LiveOK, State.IsFree, Follows;
    NextFacts(s, base, prev);
    var p := s.next[prev];
    NextFacts(s, base, p);
    BaseSize(s, base);
    TakenLinked(s, base, prev);
    TakenOrdered(s, base, prev);
    var t := Taken(s, prev);
    assert t.free + t.live == s.free + s.live;
    forall x, y
      ensures !t.Touches(base, x, y)
    {
      assert !s.Touches(base, x, y);
    }
    forall a: nat
      ensures t.IsFree(a) <==> s.IsFree(a) && !(p <= a < s.End(p))
      ensures p <= a < s.End(p) ==> s.IsFree(a)
    {
      TakenFree(s, base, prev, a);
      if p <= a < s.End(p) { InFree(s, p, a); }
    }
  }

  lemma BaseSize(s: State, base: nat)
    requires s.Sized() && s.Ordered(base)
    ensures base in s.free && s.size[base] == 0
  {
  }

  lemma InFree(s: State, p: nat, a: nat)
    requires s.Sized() && p in s.free && p <= a < s.End(p)
    ensures s.IsFree(a)
  {
  }

  lemma CarvedOK(s: State, base: nat, p: nat, n: nat)
    requires s.OK(base) && p in s.free && p in s.size && 0 < n < s.size[p]
    ensures HandedOut(s, Carved(s, p, n), p + UNIT * (s.size[p] - n), n, base)
  {
    hide State.Linked, State.Ordered, State.LiveOK, State.IsFree;
    var q, t := p + UNIT * (s.size[p] - n), Carved(s, p, n);
    CarvedLinked(s, base, p, n);
    CarvedOrdered(s, base, p, n);
    CarvedLive(s, base, p, n);
    UnitsMove(s.free + s.live, t.free + t.live, s.size, t.size, p, q);
    forall x, y
      ensures !t.Touches(base, x, y)
    {
      assert !s.Touches(base, x, y);
    }
    forall a: nat
      ensures t.IsFree(a) <==> s.IsFree(a) && !(q <= a < q + UNIT * n)
      ensures q <= a < q + UNIT * n ==> s.IsFree(a)
    {
      CarvedFree(s, base, p, n, a);
    }
  }

  /** The block that is carved off lies apart from all others. */
  lemma CarvedApart(s: State, base: nat, p: nat, n: nat, r: nat)
    requires s.Sized() && s.Ordered(base) && s.LiveOK(base) && p in s.free && 0 < n < s.size[p]
    requires r in s.free + s.live && r != p
    ensures var q, t := p + UNIT * (s.size[p] - n), Carved(s, p, n);
            && t.Sized() && r != q && t.End(p) == q && t.End(q) == s.End(p) && t.End(r) == s.End(r)
            && (r < p ==> s.End(r) <= p) && (r > p ==> r >= s.End(p))
  {
  }

  lemma CarvedOrdered(s: State, base: nat, p: nat, n: nat)
    requires s.Sized() && s.Ordered(base) && s.LiveOK(base) && p in s.free && 0 < n < s.size[p]
    ensures Carved(s, p, n).Sized() && Carved(s, p, n).Ordered(base)
    ensures p + UNIT * (s.size[p] - n) !in s.free + s.live
  {
    var q, t := p + UNIT * (s.size[p] - n), Carved(s, p, n);
    forall r <- s.free + s.live | r != p
      ensures t.Sized() && r != q && t.End(p) == q && t.End(r) == s.End(r)
    {
      CarvedApart(s, base, p, n, r);
    }
    hide State.LiveOK;
  }

  lemma CarvedLive(s: State, base: nat, p: nat, n: nat)
    requires s.Sized() && s.Ordered(base) && s.LiveOK(base) && p in s.free && 0 < n < s.size[p]
    ensures Carved(s, p, n).Sized() && Carved(s, p, n).LiveOK(base) && p !in s.live
  {
    var q, t := p + UNIT * (s.size[p] - n), Carved(s, p, n);
    assert p != base && s.size[p] > 0 && base + UNIT <= p && s.End(p) <= s.brk;
    forall r <- s.free + s.live | r != p
      ensures r != q && t.End(p) == q && t.End(q) == s.End(p) && t.End(r) == s.End(r)
      ensures (r < p ==> s.End(r) <= p) && (r > p ==> r >= s.End(p))
    {
      CarvedApart(s, base, p, n, r);
    }
    hide State.Ordered;
  }

  lemma CarvedLinked(s: State, base: nat, p: nat, n: nat)
    requires s.Sized() && s.Linked(base) && p in s.free && n < s.size[p]
    ensures Carved(s, p, n).Sized() && Carved(s, p, n).Linked(base)
  {
    hide Follows;
  }

  lemma CarvedFree(s: State, base: nat, p: nat, n: nat, a: nat)
    requires s.Sized() && s.Ordered(base) && p in s.free && 0 < n < s.size[p]
    ensures var q, t := p + UNIT * (s.size[p] - n), Carved(s, p, n);
            && q !in s.free && t.Sized() && (t.IsFree(a) <==> s.IsFree(a) && !(q <= a < q + UNIT * n))
            && (q <= a < q + UNIT * n ==> s.IsFree(a))
  {
    var q, t := p + UNIT * (s.size[p] - n), Carved(s, p, n);
    assert q !in s.free;
    assert forall r <- s.free :: r != p ==> t.End(r) == s.End(r);
    assert t.End(p) == q && s.End(p) == q + UNIT * n;
  }

  lemma WithCoreOK(s: State, base: nat, hp: nat, nu: nat)
    requires s.OK(base) && s.brk <= hp && base + UNIT <= s.brk && nu > 0
    ensures var t := WithCore(s, hp, nu);
            && t.OK(base) && hp !in s.live && (forall h <- s.live :: t.size[h] == s.size[h])
            && forall a: nat :: t.IsFree(a) <==> s.IsFree(a)
  {
    hide State.Linked, State.Ordered, State.LiveOK, Follows;
    var t := WithCore(s, hp, nu);
    WithCoreOrdered(s, base, hp, nu);
    UnitsTake(t.free + t.live, t.size, hp);
    assert t.free + t.live - {hp} == s.free + s.live;
    UnitsSame(s.free + s.live, s.size, t.size);
    WithCoreLinked(s, base, hp, nu);
    forall x, y
      ensures !t.Touches(base, x, y)
    {
      assert !s.Touches(base, x, y);
    }
  }

  lemma WithCoreOrdered(s: State, base: nat, hp: nat, nu: nat)
    requires s.Sized() && s.Ordered(base) && s.LiveOK(base) && s.brk <= hp && base + UNIT <= s.brk && nu > 0
    ensures WithCore(s, hp, nu).Sized() && WithCore(s, hp, nu).Ordered(base) && WithCore(s, hp, nu).LiveOK(base)
    ensures hp !in s.free + s.live
  {
    var t := WithCore(s, hp, nu);
    assert forall h <- s.free + s.live :: h < hp && s.End(h) <= hp;
    WithCoreLive(s, base, hp, nu);
    hide State.LiveOK;
  }

  lemma WithCoreLive(s: State, base: nat, hp: nat, nu: nat)
    requires s.Sized() && s.LiveOK(base) && base + UNIT <= hp && s.brk <= hp && nu > 0
    requires forall h <- s.free + s.live :: h < hp && s.End(h) <= hp
    ensures WithCore(s, hp, nu).Sized() && WithCore(s, hp, nu).LiveOK(base)
  {
    var t := WithCore(s, hp, nu);
    WithCoreEnds(s, hp, nu);
    hide State.End, WithCore;
    forall p <- t.free, h <- t.live | p != h
      ensures (p < h ==> t.End(p) <= h) && (h < p ==> t.End(h) <= p)
    {
      if h != hp { assert (p < h ==> s.End(p) <= h) && (h < p ==> s.End(h) <= p); }
    }
    forall g <- t.live, h <- t.live | g < h
      ensures t.End(g) <= h
    {
      if h != hp { assert g in s.live; }
    }
  }

  lemma WithCoreEnds(s: State, hp: nat, nu: nat)
    requires s.Sized() && nu > 0 && s.brk <= hp && forall h <- s.free + s.live :: h < hp && s.End(h) <= hp
    ensures var t := WithCore(s, hp, nu);
            && t.Sized() && t.free == s.free && t.live == s.live + {hp} && hp !in s.live && t.brk >= s.brk
            && t.size[hp] > 0 && t.End(hp) <= t.brk
            && forall h <- s.free + s.live :: t.size[h] == s.size[h] && t.End(h) == s.End(h) <= hp && h < hp
  {
    assert hp !in s.free + s.live;
  }

  lemma WithCoreLinked(s: State, base: nat, hp: nat, nu: nat)
    requires s.Sized() && s.Linked(base)
    ensures WithCore(s, hp, nu).Sized() && WithCore(s, hp, nu).Linked(base)
  {
    hide Follows;
  }

  // ---- one cycle ----

  function Walk(s: State, p: nat, k: nat): nat
    decreases k
  {
    if k == 0 || p !in s.next then p else Walk(s, s.next[p], k - 1)
  }

  /** Following `next` from any block of the list leads to any other one. */
  lemma {:induction false} OneCycle(s: State, base: nat, p: nat, q: nat) returns (k: nat)
    requires s.Sound(base) && base < s.brk && p in s.free && q in s.free
    ensures Walk(s, p, k) == q
    decreases Distance(p, q, s.brk)
  {
    if p == q {
      k := 0;
    } else {
      Closer(s, base, p, q);
      k := OneCycle(s, base, s.next[p], q);
      k := k + 1;
    }
  }

  /** Addresses go down only once on the way round. */
  lemma OneDescent(s: State, base: nat, p: nat, q: nat)
    requires s.Sound(base) && p in s.free && q in s.free && p in s.next && q in s.next
    ensures s.next[p] <= p && s.next[q] <= q ==> p == q
    ensures exists r <- s.free :: r in s.next && s.next[r] <= r
  {
    NextFacts(s, base, p);
    assert Follows(s.free, p, s.next[p], base) && Follows(s.free, q, s.next[q], base);
    var m := Last(s.free);
    assert Follows(s.free, m, s.next[m], base);
  }

  lemma {:induction false} Last(todo: set<nat>) returns (m: nat)
    requires todo != {}
    ensures m in todo && forall r <- todo :: r <= m
  {
    m :| m in todo;
    if todo != {m} {
      var rest := todo - {m};
      assert rest != {};
      var k := Last(rest);
      assert forall r <- todo :: r == m || r in rest;
      m := if k > m then k else m;
    }
  }

  // ---- the code ----

  const KERNBASE: nat := 0x8000_0000
  const MORECORE: nat := 4096

  /** How many units malloc looks for, in 32-bit arithmetic: the bytes rounded up, and the header. */
  function NUnits(nbytes: uint32): nat {
    Add32(nbytes, UNIT - 1) / UNIT + 1
  }

  /** The block is big enough, unless the rounding wraps around. */
  lemma NUnitsSuffice(nbytes: uint32)
    ensures UNIT * (NUnits(nbytes) - 1) >= nbytes <==> nbytes <= TWO32 - UNIT
    ensures UNIT * (NUnits(nbytes) - 1) < nbytes + UNIT
  {
  }

  /** sbrk is asked for 4096 units at least, and for no more than are needed beyond that. */
  lemma CoreUnitsAre(n: nat)
    ensures CoreUnits(n) >= n && CoreUnits(n) >= 4096 && (CoreUnits(n) == n || CoreUnits(n) == 4096)
  {
  }

  /** The bytes that sbrk sees when it is asked for `nu` units: a product modulo 2 to the 32, read as an int. */
  function SbrkArg(nu: nat): int {
    var x := nu * UNIT % TWO32;
    if x < TWO32 / 2 then x else x - TWO32
  }

  const MAXUNITS: nat := TWO32 / 2 / UNIT

  lemma SbrkArgExact(nu: nat)
    ensures SbrkArg(nu) == nu * UNIT <==> nu < MAXUNITS
  {
  }

  /** growproc for `n` that is not positive: the new size, or None if it is 0 and sbrk fails. */
  function Shrunk(sz: nat, n: int): Option<nat>
    requires n <= 0
  {
    var newsz := (sz + n) % TWO32;
    var r := if n == 0 || newsz >= sz then sz else newsz;
    if r == 0 then None else Some(r)
  }

  /** What goes wrong with bigger requests: sbrk reads its argument as 0 or less. If it succeeds, it gives the old
      end of memory, and there, behind the memory of the process, morecore would write a header. */
  lemma HeaderBeyond(nbytes: uint32, sz: nat)
    requires NUnits(nbytes) >= MAXUNITS && 0 < sz < KERNBASE
    ensures SbrkArg(CoreUnits(NUnits(nbytes))) <= 0
    ensures var size := Shrunk(sz, SbrkArg(CoreUnits(NUnits(nbytes)))); size.Some? ==> size.value <= sz
  {
    var nu := NUnits(nbytes);
    assert nu <= TWO32 / UNIT && CoreUnits(nu) == nu;
    assert nu * UNIT >= TWO32 / 2;
  }

  /** Going round the ring from behind `f`, `q` comes before `p`. */
  predicate Passed(f: nat, p: nat, q: nat) {
    if p > f then f < q < p else q > f || q < p
  }

  /** How far it is from `p` round the ring to `m`; the addresses are at most `top`. */
  function Distance(p: nat, m: nat, top: nat): int {
    if p <= m then m - p else top + 1 - p + m
  }

  lemma Closer(s: State, base: nat, p: nat, m: nat)
    requires s.Sound(base) && p in s.free && m in s.free && p != m && base < s.brk
    ensures s.next[p] in s.free && 0 <= Distance(s.next[p], m, s.brk) < Distance(p, m, s.brk)
    ensures forall q <- s.free :: Passed(m, s.next[p], q) ==> q == p || Passed(m, p, q)
  {
    NextFacts(s, base, p);
    assert Follows(s.free, p, s.next[p], base);
    forall q <- s.free
      ensures base <= q <= s.brk
    {
      NextFacts(s, base, q);
    }
  }

  /** Every live block belongs somewhere. */
  lemma {:induction false} HasPlace(s: State, base: nat, bp: nat, m: nat) returns (p: nat)
    requires s.Sound(base) && bp in s.live && m in s.free && m < bp
    ensures Behind(s, p, bp)
    decreases bp - m
  {
    NextFacts(s, base, m);
    if s.next[m] <= m || bp < s.next[m] {
      p := m;
    } else {
      p := HasPlace(s, base, bp, s.next[m]);
    }
  }

  lemma LiveFacts(s: State, base: nat, bp: nat)
    requires s.OK(base) && bp in s.live
    ensures s.Sound(base) && bp in s.size && base in s.free && base < bp
    ensures forall p <- s.free :: p in s.next && p in s.size && s.next[p] in s.next && s.next[p] in s.size
  {
    assert forall p <- s.free :: Follows(s.free, p, s.next[p], base);
  }

  /** The loop of free goes on only while `p` is not the place of `bp`. */
  lemma ScanStep(s: State, base: nat, p: nat, m: nat, bp: nat)
    requires s.Sound(base) && p in s.free && Behind(s, m, bp) && !(bp > p && bp < s.next[p])
    ensures p in s.next && s.next[p] in s.free && s.next[p] in s.next
    ensures !(p >= s.next[p] && (bp > p || bp < s.next[p])) ==> 0 <= Distance(s.next[p], m, s.brk) < Distance(p, m,
        s.brk)
  {
    NextFacts(s, base, p);
    if p != m {
      Closer(s, base, p, m);
    }
  }

  lemma PlaceFound(s: State, base: nat, p: nat, bp: nat)
    requires s.Sound(base) && p in s.free && bp in s.live
    requires p in s.next && ((bp > p && bp < s.next[p]) || (p >= s.next[p] && (bp > p || bp < s.next[p])))
    ensures Behind(s, p, bp)
  {
    NextFacts(s, base, p);
    LiveFacts2(s, base, bp);
  }

  lemma LiveFacts2(s: State, base: nat, bp: nat)
    requires s.Sound(base) && bp in s.live
    ensures base < bp
  {
  }

  /** sbrk gave `nu` units, and they are free. */
  ghost predicate Extended(s: State, t: State, nu: nat, base: nat) {
    && s.Sized() && t.OK(base) && t.live == s.live && t.brk == s.brk + UNIT * nu && t.got == s.got + nu
    && (forall h <- s.live :: t.size[h] == s.size[h])
    && (forall a: nat :: t.IsFree(a) <==> s.IsFree(a) || s.brk <= a < t.brk)
    && exists q <- t.free :: t.size[q] >= nu
  }

  /** The fields as the two steps of free compute them. */
  lemma FreedFields(s: State, base: nat, p: nat, bp: nat)
    requires s.OK(base) && bp in s.live && Behind(s, p, bp)
    ensures p in s.free && bp in s.size && s.next[p] in s.free && s.next[p] in s.next && p != bp && s.next[p] != bp
    ensures var q := s.next[p];
            var size := if s.End(bp) == q then s.size[bp := s.size[bp] + s.size[q]] else s.size;
            var next := s.next[bp := if s.End(bp) == q then s.next[q] else q];
            var t := Freed(s, p, bp);
            && t.size == (if s.End(p) == bp then size[p := size[p] + size[bp]] else size)
            && t.next == next[p := if s.End(p) == bp then next[bp] else bp]
            && t.live == s.live - {bp} && t.brk == s.brk && t.got == s.got
  {
    hide State.Linked, State.Ordered, State.LiveOK, State.Coalesced, Units;
    NextFacts(s, base, p);
    LiveFacts(s, base, bp);
  }

  lemma FreedToOK(s: State, t: State, bp: nat, base: nat)
    requires FreedTo(s, t, bp, base)
    ensures t.OK(base) && t.Sized()
  {
  }

  function CoreUnits(n: nat): nat {
    if n < MORECORE then MORECORE else n
  }

  lemma ExtendedBy(s: State, t: State, base: nat, nu: nat)
    requires s.OK(base) && base + UNIT <= s.brk && nu > 0 && FreedTo(WithCore(s, s.brk, nu), t, s.brk, base)
    requires exists q <- t.free :: q in t.size && t.size[q] >= nu
    ensures Extended(s, t, nu, base)
  {
    hide State.Linked, State.Ordered, State.LiveOK, State.IsFree, State.Coalesced, Units;
    WithCoreOK(s, base, s.brk, nu);
    assert t.live == s.live;
  }

  /** The block with the highest address. */
  ghost predicate Highest(s: State, p: nat) {
    p in s.free && forall q <- s.free :: q <= p
  }

  /** Memory from sbrk comes behind all blocks. */
  lemma CoreIsLast(s: State, base: nat, p: nat, nu: nat)
    requires s.OK(base) && base + UNIT <= s.brk && Behind(WithCore(s, s.brk, nu), p, s.brk)
    ensures Highest(s, p)
  {
    hide State.LiveOK, State.Coalesced, Units;
    assert Follows(s.free, p, s.next[p], base);
    assert forall q <- s.free | q != base :: q in s.size && q < s.End(q) <= s.brk;
  }

  lemma NUnitsPositive(nbytes: uint32)
    ensures 0 < NUnits(nbytes)
  {
  }

  /** The list before the first call: `base` alone. */
  lemma StartOK(next: map<nat, nat>, size: map<nat, nat>, brk: nat, base: nat)
    ensures State({base}, next[base := base], size[base := 0], {}, brk, 0).OK(base)
  {
    UnitsTake({base}, size[base := 0], base);
    assert {base} - {base} == {};
    assert {base} + {} == {base};
  }

  lemma Facts(s: State, base: nat, p: nat)
    requires s.OK(base) && p in s.free
    ensures s.Sound(base) && p in s.next && p in s.size && s.next[p] in s.free && s.next[p] in s.next
        && s.next[p] in s.size
    ensures base <= p
  {
    NextFacts(s, base, p);
  }

  ghost predicate NoneFits(s: State, n: nat) {
    forall q <- s.free :: q in s.size && s.size[q] < n
  }

  /** `p` is the first block on the way round from `f` that has `n` units. */
  ghost predicate FirstFit(s: State, f: nat, p: nat, n: nat) {
    p in s.free && p in s.size && s.size[p] >= n && forall q <- s.free | Passed(f, p, q) :: q in s.size && s.size[q] < n
  }

  /** `from` is the first fit on the way round from `f`; header `b` is the tail of it, and `prev` comes before it. */
  ghost predicate Found(s: State, f: nat, from: nat, n: nat, b: nat, prev: nat) {
    && FirstFit(s, f, from, n) && n <= s.size[from] && b == from + UNIT * (s.size[from] - n)
    && prev in s.free && prev in s.next && s.next[prev] == from
  }

  lemma FitFound(s: State, f: nat, p: nat, n: nat)
    requires p in s.free && p in s.size && s.size[p] >= n && forall q <- s.free | Passed(f, p, q) ::
        q in s.size && s.size[q] < n
    ensures FirstFit(s, f, p, n) && !NoneFits(s, n)
  {
  }

  lemma ScanFrom(s: State, base: nat, f: nat)
    requires s.OK(base) && f in s.free
    ensures f in s.next && forall q <- s.free :: !Passed(f, s.next[f], q)
  {
    NextFacts(s, base, f);
    assert Follows(s.free, f, s.next[f], base);
    forall q <- s.free
      ensures base <= q
    {
      NextFacts(s, base, q);
    }
  }

  /** All blocks were looked at; this happens once only. */
  lemma NoneLeft(start: State, s: State, base: nat, f: nat, n: nat, asked: bool)
    requires s.OK(base) && f in s.free && f in s.size && s.size[f] < n
    requires forall q <- s.free | Passed(f, f, q) :: q in s.size && s.size[q] < n
    requires if asked then Extended(start, s, CoreUnits(n), base) else s == start
    ensures !asked && NoneFits(start, n)
  {
    assert forall q <- s.free :: q == f || Passed(f, f, q);
  }

  lemma TakenFacts(s: State, base: nat, prev: nat)
    requires s.OK(base) && prev in s.free && prev in s.next && s.next[prev] in s.size && s.size[s.next[prev]] > 0
    ensures s.next[prev] in s.next && HandedOut(s, Taken(s, prev), s.next[prev], s.size[s.next[prev]], base)
    ensures Taken(s, prev).OK(base) && prev != s.next[prev]
  {
    TakenOK(s, base, prev);
    NextFacts(s, base, prev);
  }

  lemma CarvedFacts(s: State, base: nat, p: nat, n: nat)
    requires s.OK(base) && p in s.free && p in s.size && 0 < n < s.size[p]
    ensures HandedOut(s, Carved(s, p, n), p + UNIT * (s.size[p] - n), n, base) && Carved(s, p, n).OK(base)
  {
    CarvedOK(s, base, p, n);
  }

  /** What malloc promises when it returns block `b`: it has exactly `n` units; its bytes were free, or
      come from the `nu` units that sbrk gave; what is left of these is free; no other block of
      the program changes; no unit is lost, and the list is still coalesced. */
  ghost predicate Served(s: State, t: State, b: nat, n: nat, nu: nat, base: nat) {
    && s.Sized() && t.OK(base) && b !in s.live && t.live == s.live + {b} && t.size[b] == n
    && t.brk == s.brk + UNIT * nu && t.got == s.got + nu
    && (forall h <- s.live :: t.size[h] == s.size[h])
    && (forall a: nat :: b <= a < b + UNIT * n ==> s.IsFree(a) || s.brk <= a < t.brk)
    && forall a: nat :: t.IsFree(a) <==> (s.IsFree(a) || s.brk <= a < t.brk) && !(b <= a < b + UNIT * n)
  }

  lemma ServedBy(s: State, u: State, t: State, asked: bool, b: nat, n: nat, nu: nat, base: nat)
    requires if asked then Extended(s, u, nu, base) else u == s
    requires HandedOut(u, t, b, n, base)
    ensures Served(s, t, b, n, if asked then nu else 0, base)
  {
    hide State.Linked, State.Ordered, State.LiveOK, State.Coalesced, State.IsFree, Units;
  }

  class Heap {
    /** The address of the static header `base`. */
    const base: nat
    var freep: nat
    var next: map<nat, nat>
    var size: map<nat, nat>
    /** The size of the process. */
    var brk: nat
    ghost var free: set<nat>
    ghost var live: set<nat>
    ghost var got: nat

    ghost function St(): State
      reads this
    {
      State(free, next, size, live, brk, got)
    }

    /** The state, with `base` linked to itself if malloc was not called yet. */
    ghost function Start(): State
      reads this
    {
      if freep == 0 then State({base}, next[base := base], size[base := 0], {}, brk, 0) else St()
    }

    ghost predicate Valid()
      reads this
    {
      && 0 < base && base + UNIT <= brk
      && if freep == 0 then live == {} && got == 0 else St().OK(base) && freep in free
    }

    constructor (base: nat, brk: nat)
      requires 0 < base && base + UNIT <= brk
      ensures Valid() && this.base == base && this.brk == brk && live == {} && got == 0
    {
      this.base, this.brk, freep := base, brk, 0;
      next, size, free, live, got := map[], map[], {}, {}, 0;
    }

    /** The loop of free: the block of the list behind which block `bp` belongs. */
    method FindPlace(bp: nat) returns (p: nat)
      requires Valid() && bp in live && freep != 0
      ensures Behind(St(), p, bp)
    {
      hide State.OK, State.Linked, State.Ordered, State.LiveOK, State.IsFree, State.Coalesced, Follows, Units;
      ghost var s := St();
      LiveFacts(s, base, bp);
      ghost var m := HasPlace(s, base, bp, base);
      p := freep;
      while !(bp > p && bp < next[p])
        invariant p in free && p in next && St() == s && freep == old(freep)
        decreases Distance(p, m, brk)
      {
        ScanStep(s, base, p, m, bp);
        if p >= next[p] && (bp > p || bp < next[p]) {
          break;
        }
        p := next[p];
      }
      PlaceFound(s, base, p, bp);
    }

    /** free */
    method Free(ap: nat)
      requires Valid() && ap >= UNIT && ap - UNIT in live
      modifies this`freep, this`next, this`size, this`free, this`live
      ensures Valid() && freep != 0 && FreedTo(old(St()), St(), ap - UNIT, base)
      ensures Behind(old(St()), freep, ap - UNIT)
      ensures exists q <- free :: q in size && size[q] >= old(size)[ap - UNIT]
    {
      hide State.OK, State.Linked, State.Ordered, State.LiveOK, State.IsFree, State.Coalesced, Follows, Units, Freed,
          FreedTo;
      var bp: nat := ap - UNIT;
      ghost var s := St();
      LiveFacts(s, base, bp);
      var p: nat := FindPlace(bp);
      NextFacts(s, base, p);
      FreedOK(s, base, p, bp);
      FreedFields(s, base, p, bp);
      if bp + UNIT * size[bp] == next[p] {
        size := size[bp := size[bp] + size[next[p]]];
        next := next[bp := next[next[p]]];
      } else {
        next := next[bp := next[p]];
      }
      if p + UNIT * size[p] == bp {
        size := size[p := size[p] + size[bp]];
        next := next[p := next[bp]];
      } else {
        next := next[p := bp];
      }
      freep := p;
      free, live := Freed(s, p, bp).free, live - {bp};
      assert St() == Freed(s, p, bp);
      FreedToOK(s, St(), bp, base);
    }

    /** The sbrk system call for a positive number of bytes; `memory`: the kernel has the page frames. */
    method Sbrk(n: nat, memory: bool) returns (p: Option<nat>)
      modifies this`brk
      ensures p.Some? <==> memory && old(brk) + n < KERNBASE
      ensures p.Some? ==> p.value == old(brk) && brk == old(brk) + n
      ensures p.None? ==> brk == old(brk)
    {
      if brk + n >= KERNBASE || !memory {
        return None;
      }
      p := Some(brk);
      brk := brk + n;
    }

    /** morecore; 0 only if sbrk failed. */
    method Morecore(n: nat, memory: bool) returns (p: nat)
      requires Valid() && freep != 0 && 0 < n < MAXUNITS
      modifies this
      ensures Valid() && freep != 0
      ensures p == 0 <==> !memory || old(brk) + UNIT * CoreUnits(n) >= KERNBASE
      ensures p == 0 ==> St() == old(St()) && freep == old(freep)
      ensures p != 0 ==> p == freep && Extended(old(St()), St(), CoreUnits(n), base) && Highest(old(St()), freep)
    {
      hide State.OK, State.IsFree, Freed, FreedTo;
      var nu := n;
      if nu < MORECORE {
        nu := MORECORE;
      }
      ghost var s := St();
      SbrkArgExact(nu);
      var hp := Sbrk(nu * UNIT, memory);
      if hp.None? {
        return 0;
      }
      WithCoreOK(s, base, hp.value, nu);
      size := size[hp.value := nu];
      live, got := live + {hp.value}, got + nu;
      assert St() == WithCore(s, hp.value, nu);
      Free(hp.value + UNIT);
      ExtendedBy(s, St(), base, nu);
      CoreIsLast(s, base, freep, nu);
      p := freep;
    }

    /** The part of malloc that takes `n` units off the block behind `prevp`. */
    method HandOut(prevp: nat, n: nat) returns (p: nat)
      requires St().OK(base) && prevp in free && prevp in next && next[prevp] in size && size[next[prevp]] >= n > 0
      modifies this`freep, this`next, this`size, this`free, this`live
      ensures HandedOut(old(St()), St(), p, n, base) && St().OK(base) && freep == prevp && prevp in free
      ensures p == old(next[prevp]) + UNIT * (old(size[next[prevp]]) - n)
    {
      hide State.OK, HandedOut, State.IsFree, State.Linked, State.Ordered, State.LiveOK, Follows, Units;
      ghost var u := St();
      p := next[prevp];
      Facts(u, base, prevp);
      Facts(u, base, p);
      if size[p] == n {
        TakenFacts(u, base, prevp);
        next := next[prevp := next[p]];
        free, live := free - {p}, live + {p};
        assert St() == Taken(u, prevp);
      } else {
        CarvedFacts(u, base, p, n);
        size := size[p := size[p] - n];
        assert size[p] == u.size[p] - n;
        p := p + UNIT * size[p];
        size := size[p := n];
        live := live + {p};
        assert size == Carved(u, u.next[prevp], n).size;
        assert St() == Carved(u, u.next[prevp], n);
      }
      freep := prevp;
    }

    /** The loop of malloc. `b` is the header handed out, None if sbrk failed; `from` is the block that it is part of,
        `mid` the state in which that was found, and `f` what freep was then. */
    method Scan(n: nat, memory: bool)
      returns (ok: bool, b: Option<nat>, ghost asked: bool, ghost from: nat, ghost mid: State, ghost f: nat)
      requires Valid() && freep != 0 && n > 0
      modifies this
      ensures !ok <==> asked && n >= MAXUNITS
      ensures asked <==> NoneFits(old(St()), n)
      ensures ok ==> Valid() && freep != 0
      ensures ok && b.None? ==> asked && St() == old(St()) && (!memory || old(brk) + UNIT * CoreUnits(n) >= KERNBASE)
      ensures ok && b.Some? ==> Served(old(St()), St(), b.value, n, if asked then CoreUnits(n) else 0, base)
      ensures ok && b.Some? ==> Found(mid, f, from, n, b.value, freep)
      ensures ok && b.Some? ==>
        if asked then Extended(old(St()), mid, CoreUnits(n), base) && Highest(old(St()), f)
        else mid == old(St()) && f == old(freep)
      ensures ok && b.None? ==> freep == old(freep)
    {
      hide State.OK, State.IsFree, State.Linked, State.Ordered, State.LiveOK, Follows, Passed, Distance;
      hide Units, HandedOut, Extended, Served, FirstFit, NoneFits, CoreUnits, Highest;
      asked, from, mid, f := false, 0, St(), freep;
      ghost var start := St();
      var prevp: nat := freep;
      Facts(St(), base, prevp);
      ScanFrom(St(), base, freep);
      var p: nat := next[prevp];
      while true
        invariant St().OK(base) && base + UNIT <= brk && freep in free && freep != 0 && prevp in free
        invariant prevp in next && p == next[prevp]
        invariant if asked then NoneFits(start, n) && Extended(start, St(), CoreUnits(n), base) && n < MAXUNITS
                       && Highest(start, freep)
                  else St() == start && freep == old(freep)
        invariant forall q <- free | Passed(freep, p, q) :: q in size && size[q] < n
        decreases if asked then 0 else 1, Distance(p, freep, brk)
      {
        ghost var u := St();
        Facts(u, base, prevp);
        if size[p] >= n {
          from, mid, f := p, u, freep;
          FitFound(u, freep, p, n);
          var h := HandOut(prevp, n);
          ServedBy(start, u, St(), asked, h, n, CoreUnits(n), base);
          return true, Some(h), asked, from, mid, f;
        }
        if p == freep {
          NoneLeft(start, u, base, p, n, asked);
          if n >= MAXUNITS {
            return false, None, true, 0, mid, f;
          }
          asked := true;
          p := Morecore(n, memory);
          if p == 0 {
            return true, None, true, 0, mid, f;
          }
          ScanFrom(St(), base, freep);
        } else {
          Closer(u, base, p, freep);
        }
        Facts(St(), base, p);
        prevp := p;
        p := next[p];
      }
    }

    /** malloc: takes the first block behind `freep` that is big enough. If there is none, sbrk is `asked`,
        once, and 0 means that it failed. The model stops (`ok` is false) if sbrk would be asked for
        2 to the 31 bytes or more, which it does not read as a positive number. */
    method Malloc(nbytes: uint32, memory: bool)
      returns (ok: bool, r: nat, ghost asked: bool, ghost from: nat, ghost mid: State, ghost f: nat)
      requires Valid()
      modifies this
      ensures !ok <==> asked && NUnits(nbytes) >= MAXUNITS
      ensures asked <==> NoneFits(old(Start()), NUnits(nbytes))
      ensures ok ==> Valid() && freep != 0
      ensures ok && r == 0 ==>
        asked && St() == old(Start()) && (!memory || old(brk) + UNIT * CoreUnits(NUnits(nbytes)) >= KERNBASE)
      ensures ok && r != 0 ==>
        r >= UNIT && Served(old(Start()), St(), r - UNIT, NUnits(nbytes),
            if asked then CoreUnits(NUnits(nbytes)) else 0, base)
      ensures ok && r == 0 ==> freep == if old(freep) == 0 then base else old(freep)
      // where it is, and where the next search starts; `f` is where this one did, or went on after sbrk
      ensures ok && r != 0 ==> Found(mid, f, from, NUnits(nbytes), r - UNIT, freep)
      ensures ok && r != 0 ==>
        if asked then Extended(old(Start()), mid, CoreUnits(NUnits(nbytes)), base) && Highest(old(Start()), f)
        else mid == old(Start()) && f == if old(freep) == 0 then base else old(freep)
    {
      hide State.OK, Served, Found, FirstFit, NoneFits, NUnits, CoreUnits, Extended, Highest;
      StartOK(next, size, brk, base);
      NUnitsPositive(nbytes);
      if freep == 0 {
        next := next[base := base];
        size := size[base := 0];
        freep := base;
        free := {base};
      }
      var b: Option<nat>;
      ok, b, asked, from, mid, f := Scan(NUnits(nbytes), memory);
      r := if b.Some? then b.value + UNIT else 0;
    }
  }
}
