/** What the processor makes of page tables (mmu.h): a walk over the words as they lie in the frames. */
module Mmu {
  import opened Words
  import opened Kalloc

  /** An entry lets an access pass: present (1), writeable (2) for writing, user (4) for user mode. */
  predicate Grants(w: uint32, user: bool, write: bool) {
    w % 2 == 1 && (write ==> w / 2 % 2 == 1) && (user ==> w / 4 % 2 == 1)
  }

  /** The frame that an access to page `v` ends up in, with `cr3` pointing to frame `dir`; None is a fault. */
  function Translate(pages: seq<Page>, dir: nat, v: nat, user: bool, write: bool): Option<nat>
    requires dir < |pages| && v < 0x10_0000
  {
    var pde := pages[dir][v / 1024];
    if !Grants(pde, user, write) || pde / 4096 >= |pages| then None else
    var pte := pages[pde / 4096][v % 1024];
    if Grants(pte, user, write) then Some(pte / 4096) else None
  }

  /** The bytes that a program sees in page `v`, if it may. */
  function Seen(pages: seq<Page>, dir: nat, v: nat, write: bool): Option<Page>
    requires dir < |pages| && v < 0x10_0000
  {
    var f := Translate(pages, dir, v, true, write);
    if f.Some? && f.value < |pages| then Some(pages[f.value]) else None
  }
}
