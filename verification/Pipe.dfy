/** The pipe (pipe.c): a ring buffer with 32-bit counters that wrap around. Each method is what happens
    between two points where the process sleeps or gives the lock up. */
module Pipe {
  import opened Words

  /** What a part of pipewrite ends with. */
  datatype WriteEnd = Wrote | MustSleep | Refused

  /** The channels &p->nread and &p->nwrite. */
  datatype Sleepers = OnRead | OnWrite

  /** What a part of piperead ends with. */
  datatype ReadEnd = Took(bytes: seq<byte>) | Empty | Killed

  /** The slot of the w-th byte is w modulo the size for the wrapped counter too, for all w, if and only if
      the size divides 2 to the 32. */
  lemma SlotsAgree(size: nat)
    requires size > 0
    ensures (forall w: nat :: w % TWO32 % size == w % size) <==> TWO32 % size == 0
  {
    if TWO32 % size == 0 {
      forall w: nat
        ensures w % TWO32 % size == w % size
      {
        SlotAgrees(w, size);
      }
    } else {
      assert TWO32 % TWO32 % size == 0;
    }
  }

  lemma SlotAgrees(w: nat, size: nat)
    requires size > 0 && TWO32 % size == 0
    ensures w % TWO32 % size == w % size
  {
    var x, m, k := w % TWO32, w / TWO32, TWO32 / size;
    calc {
      w;
      m * TWO32 + x;
      m * (k * size) + x;
      { Assoc(m, k, size); }
      (m * k) * size + x;
      { assert x == x / size * size + x % size; }
      (m * k) * size + x / size * size + x % size;
      { Distribute(m * k, x / size, size); }
      (m * k + x / size) * size + x % size;
    }
    ModUnique(w, m * k + x / size, x % size, size);
  }

  lemma Assoc(a: int, b: int, c: int)
    ensures a * (b * c) == (a * b) * c
  {
  }

  lemma Distribute(a: int, b: int, c: int)
    ensures a * c + b * c == (a + b) * c
  {
  }

  lemma Multiples(d: int, size: nat)
    requires size > 0
    ensures d >= 1 ==> d * size >= size
    ensures d <= -1 ==> d * size <= 0 - size
  {
  }

  lemma ModUnique(a: int, q: int, r: int, size: nat)
    requires size > 0 && a == q * size + r && 0 <= r < size
    ensures a % size == r
  {
    assert a == a / size * size + a % size;
    Multiples(a / size - q, size);
    Distribute(a / size, -q, size);
  }

  /** Two bytes fewer than `size` apart lie in different slots. */
  lemma SlotsDiffer(x: nat, y: nat, size: nat)
    requires size > 0 && x < y < x + size
    ensures x % size != y % size
  {
    Multiples(y / size - x / size, size);
    Distribute(y / size, -(x / size), size);
  }

  /** Where byte `k` of the stream lies. */
  function Slot(k: nat, size: nat): (r: nat)
    requires size > 0
    ensures r < size
  {
    k % size
  }

  /** A counter after `n` increments. */
  function Counter(n: nat): uint32 {
    n % TWO32
  }

  lemma Bump(n: nat)
    ensures Add32(Counter(n), 1) == Counter(n + 1)
  {
  }

  /** The code's tests for empty and full, on wrapped counters. */
  lemma Tests(r: nat, w: nat, size: nat)
    requires r <= w <= r + size && 0 < size < TWO32
    ensures Counter(r) == Counter(w) <==> r == w
    ensures Counter(w) == Add32(Counter(r), size) <==> w == r + size
  {
  }

  predicate Divides(size: nat) {
    size > 0 && TWO32 % size == 0
  }

  lemma SlotOf(w: nat, size: nat)
    requires Divides(size)
    ensures Slot(Counter(w), size) == Slot(w, size)
  {
    SlotAgrees(w, size);
  }

  lemma SlotsApart(written: seq<byte>, r: nat, size: nat)
    requires 0 < size && r <= |written| < r + size
    ensures forall k: nat {:trigger written[k]} | r <= k < |written| :: Slot(k, size) != Slot(|written|, size)
  {
    forall k: nat | r <= k < |written|
      ensures Slot(k, size) != Slot(|written|, size)
    {
      SlotsDiffer(k, |written|, size);
    }
  }

  class Pipe {
    const data: array<byte>
    var nread: uint32
    var nwrite: uint32
    var readopen: bool
    var writeopen: bool
    /** All bytes that were written, and all that were read, in the order of the lock. */
    ghost var written: seq<byte>
    ghost var taken: seq<byte>

    /** The bytes read are the first ones written, and the rest lies in the buffer. */
    ghost predicate Valid()
      reads this, data
    {
      && 0 < data.Length < TWO32 && Divides(data.Length)
      && |taken| <= |written| <= |taken| + data.Length && taken == written[..|taken|]
      && nread == Counter(|taken|) && nwrite == Counter(|written|)
      && forall k: nat {:trigger written[k]} | |taken| <= k < |written| :: data[Slot(k, data.Length)] == written[k]
    }

    /** The bytes written and not yet read. */
    ghost function Buffered(): seq<byte>
      reads this
      requires |taken| <= |written|
    {
      written[|taken|..]
    }

    /** FIFO: in every state of the pipe. */
    lemma InOrder()
      requires Valid()
      ensures taken + Buffered() == written && |Buffered()| <= data.Length
      ensures (nwrite - nread) % TWO32 == |Buffered()|
    {
      hide Divides, Slot;
    }

    /** pipealloc, for a size that divides 2 to the 32. */
    constructor (size: nat)
      requires size < TWO32 && Divides(size)
      ensures Valid() && readopen && writeopen && written == [] && taken == [] && data.Length == size && fresh(data)
    {
      data := new byte[size];
      nread, nwrite, readopen, writeopen := 0, 0, true, true;
      written, taken := [], [];
    }

    /** pipewrite from byte `i` on, up to where it sleeps or returns. */
    method Write(addr: seq<byte>, i: nat, killed: bool) returns (end: WriteEnd, j: nat)
      requires Valid() && i <= |addr|
      modifies this`nwrite, this`written, data
      ensures Valid() && i <= j <= |addr| && written == old(written) + addr[i..j]
      ensures end.Wrote? <==> j == |addr|
      ensures end.MustSleep? ==> |Buffered()| == data.Length && readopen && !killed
      ensures end.Refused? ==> |Buffered()| == data.Length && (!readopen || killed)
    {
      hide Slot, Divides, Counter, Add32;
      j := i;
      while j < |addr|
        invariant Valid() && i <= j <= |addr| && written == old(written) + addr[i..j]
      {
        Tests(|taken|, |written|, data.Length);
        if nwrite == Add32(nread, data.Length) {
          if !readopen || killed {
            return Refused, j;
          }
          return MustSleep, j;
        }
        SlotOf(|written|, data.Length);
        SlotsApart(written, |taken|, data.Length);
        data[Slot(nwrite, data.Length)] := addr[j];
        Bump(|written|);
        nwrite := Add32(nwrite, 1);
        written := written + [addr[j]];
        assert addr[i..j + 1] == addr[i..j] + [addr[j]];
        j := j + 1;
      }
      end := Wrote;
    }

    /** piperead, up to where it sleeps or returns. For n > 0, nothing is read only when the pipe is empty and
        the write end closed. */
    method Read(n: int, killed: bool) returns (end: ReadEnd)
      requires Valid()
      modifies this`nread, this`taken
      ensures Valid()
      ensures end.Took? ==>
        && taken == old(taken) + end.bytes && end.bytes <= old(Buffered())
        && |end.bytes| == (if n <= 0 then 0 else if n < |old(Buffered())| then n else |old(Buffered())|)
        && (n > 0 && end.bytes == [] ==> old(Buffered()) == [] && !writeopen)
      ensures end.Empty? ==> taken == old(taken) && Buffered() == [] && writeopen && !killed
      ensures end.Killed? ==> taken == old(taken) && Buffered() == [] && writeopen && killed
    {
      hide Slot, Divides, Counter, Add32;
      Tests(|taken|, |written|, data.Length);
      if nread == nwrite && writeopen {
        return if killed then Killed else Empty;
      }
      var bytes := [];
      ghost var all := Buffered();
      var i := 0;
      while i < n
        invariant Valid() && 0 <= i == |bytes| <= |all| && (n <= 0 ==> i == 0) && (n > 0 ==> i <= n)
        invariant taken == old(taken) + bytes && bytes == all[..i]
      {
        Tests(|taken|, |written|, data.Length);
        if nread == nwrite {
          break;
        }
        SlotOf(|taken|, data.Length);
        assert written[|taken|] == all[i];
        var b := data[Slot(nread, data.Length)];
        bytes := bytes + [b];
        Bump(|taken|);
        nread := Add32(nread, 1);
        taken := taken + [b];
        i := i + 1;
      }
      end := Took(bytes);
    }

    /** pipeclose: whoever sleeps on the other end is woken; `free`: nobody uses the pipe any more, and its page
        goes back to kfree. */
    method Close(writable: bool) returns (wakes: Sleepers, free: bool)
      requires Valid()
      modifies this`readopen, this`writeopen
      ensures Valid() && free == (!readopen && !writeopen)
      ensures wakes == if writable then OnRead else OnWrite
      ensures if writable then !writeopen && readopen == old(readopen) else !readopen && writeopen == old(writeopen)
    {
      if writable {
        writeopen := false;
        wakes := OnRead;
      } else {
        readopen := false;
        wakes := OnWrite;
      }
      free := !readopen && !writeopen;
    }
  }
}
