/** Page frames (kalloc.c). A frame is named by its physical address divided by PGSIZE. */
module Kalloc {
  import opened Words

  const PGWORDS: nat := 1024
  const NFRAMES: nat := 0x10_0000

  type Page = s: seq<uint32> | |s| == PGWORDS witness seq(PGWORDS, _ => 0)

  /** memset of a page */
  function Filled(w: uint32): (p: Page)
    ensures forall i | 0 <= i < PGWORDS :: p[i] == w
  {
    seq(PGWORDS, _ => w)
  }

  function Elements(s: seq<nat>): set<nat> {
    set i | 0 <= i < |s| :: s[i]
  }

  lemma FreeTwice(f: nat, s: seq<nat>)
    requires Distinct(s)
    ensures Distinct([f] + s) <==> f !in Elements(s)
  {
    var r := [f] + s;
    if i :| 0 <= i < |s| && s[i] == f {
      assert r[0] == r[i + 1];
    } else {
      forall i, j | 0 <= i < j < |r|
        ensures r[i] != r[j]
      {
        assert r[j] == s[j - 1];
      }
    }
  }

  /** The frames before `lo` belong to the kernel; `free` is the free list, its head first. */
  class Kmem {
    const lo: nat
    var pages: seq<Page>
    var free: seq<nat>

    ghost predicate Valid()
      reads this
    {
      lo <= |pages| <= NFRAMES && Distinct(free) && forall i | 0 <= i < |free| :: lo <= free[i] < |pages|
    }

    constructor (lo: nat, pages: seq<Page>)
      requires lo <= |pages| <= NFRAMES
      ensures Valid() && free == [] && this.lo == lo && this.pages == pages
    {
      this.lo, this.pages, free := lo, pages, [];
    }

    /** kalloc: the head of the free list. */
    method Alloc() returns (f: Option<nat>)
      requires Valid()
      modifies this`free
      ensures Valid()
      ensures f.None? <==> old(free) == []
      ensures f.None? ==> free == []
      ensures f.Some? ==> old(free) == [f.value] + free && f.value !in Elements(free) && lo <= f.value < |pages|
    {
      if free == [] {
        return None;
      }
      f := Some(free[0]);
      free := free[1..];
    }

    /** kfree; panics for a frame that kalloc never gives. The frame is filled with junk. A frame that is free
        already is taken without complaint, and then is on the list twice. */
    method Free(f: nat) returns (ok: bool)
      requires Valid()
      modifies this`free, this`pages
      ensures ok == (lo <= f < |pages|) && |pages| == |old(pages)|
      ensures Valid() <==> !ok || f !in old(Elements(free))
      ensures if ok then free == [f] + old(free) && pages == old(pages)[f := Filled(0x0101_0101)]
              else free == old(free) && pages == old(pages)
    {
      if !(lo <= f < |pages|) {
        return false;
      }
      FreeTwice(f, free);
      pages := pages[f := Filled(0x0101_0101)];
      free := [f] + free;
      ok := true;
    }

    /** freerange, from page number `first` to before `end`. */
    method FreeRange(first: nat, end: nat)
      requires Valid() && lo <= first <= end <= |pages| && forall f | first <= f < end :: f !in Elements(free)
      modifies this`free, this`pages
      ensures Valid() && |pages| == |old(pages)|
      ensures forall f: nat :: f in Elements(free) <==> f in old(Elements(free)) || first <= f < end
      ensures forall f | 0 <= f < |pages| && !(first <= f < end) :: pages[f] == old(pages)[f]
    {
      for p := first to end
        invariant Valid() && |pages| == |old(pages)|
        invariant forall f: nat :: f in Elements(free) <==> f in old(Elements(free)) || first <= f < p
        invariant forall f | 0 <= f < |pages| && !(first <= f < end) :: pages[f] == old(pages)[f]
      {
        ghost var before := free;
        var ok := Free(p);
        ElementsCons(p, before);
      }
    }
  }

  lemma ElementsCons(x: nat, s: seq<nat>)
    ensures Elements([x] + s) == {x} + Elements(s)
  {
    forall i | 0 <= i < |s|
      ensures ([x] + s)[i + 1] == s[i]
    {
    }
    assert ([x] + s)[0] == x;
    forall y | y in Elements(s)
      ensures y in Elements([x] + s)
    {
      var i :| 0 <= i < |s| && s[i] == y;
      assert ([x] + s)[i + 1] == y;
    }
  }
}
