/** The kernel's bump allocator, kernel/mem.c.  Addresses are unsigned 64-bit words. */
module KernelHeap {
  import opened Base

  const HEAP_SIZE := 2 * 1024 * 1024
  const AGENT_STACK_SIZE := 8192

  datatype Heap = Heap(ptr: nat, end: nat)

  function RoundDown(x: nat, unit: nat): nat
    requires unit > 0
  {
    x - x % unit
  }

  function RoundUp(x: nat, unit: nat): nat
    requires unit > 0
  {
    RoundDown(x + unit - 1, unit)
  }

  /** `kalloc`: the size is rounded up to 16 bytes; both additions are modulo 2^64. */
  function Kalloc(h: Heap, size: nat): (Heap, Option<nat>) {
    var top := Wrap(h.ptr + RoundDown(Wrap(size + 15), 16));
    if top > h.end then (h, None) else (h.(ptr := top), Some(h.ptr))
  }

  /** `kalloc_page` */
  function KallocPage(h: Heap): (Heap, Option<nat>) {
    var p := RoundUp(h.ptr, PAGE_SIZE);
    if p + PAGE_SIZE > h.end then (h, None) else (h.(ptr := p + PAGE_SIZE), Some(p))
  }

  /** The kernel's heap never lies near the top of the address space. */
  ghost predicate Valid(h: Heap) {
    0 < h.ptr <= h.end < TWO_64 - HEAP_SIZE
  }

  /** Neither addition of `kalloc` wraps. */
  predicate Fits(h: Heap, size: nat) {
    size + 15 < TWO_64 && h.ptr + RoundDown(size + 15, 16) < TWO_64
  }

  /**
   Exactly the sizes that do not wrap are safe: the block handed out then lies between the old and the
   new bump pointer.  A size that wraps either gives out a block reaching past the pointer or moves the
   pointer back over memory already handed out.
   */
  lemma KallocSafeExactly(h: Heap, size: nat)
    requires Valid(h) && 0 < size < TWO_64 && Kalloc(h, size).1.Some?
    ensures var (h', p) := Kalloc(h, size);
            h.ptr <= p.value && p.value + size <= h'.ptr <= h.end <==> Fits(h, size)
  {
    if size + 15 >= TWO_64 {
      assert Wrap(size + 15) == size + 15 - TWO_64;
      assert Wrap(size + 15) < 15;
      assert RoundDown(Wrap(size + 15), 16) == 0;
    }
  }

  /** There is a whole page between the bump pointer, rounded up, and the end. */
  predicate PageFits(h: Heap) {
    (h.ptr + 4095) / 4096 * 4096 + 4096 <= h.end
  }

  /** A page is handed out exactly when one fits, and it is the first whole page above the bump pointer. */
  lemma KallocPageExactly(h: Heap)
    ensures var (h', p) := KallocPage(h);
            var first := (h.ptr + 4095) / 4096 * 4096;
            && (p.Some? <==> PageFits(h))
            && (p.Some? ==> p.value == first && h' == Heap(first + 4096, h.end))
            && (p.None? ==> h' == h)
  {
    assert RoundUp(h.ptr, PAGE_SIZE) == (h.ptr + 4095) / 4096 * 4096;
  }

  /** A size that does not wrap is served exactly when its 16-byte multiple fits, at the bump pointer. */
  lemma KallocExactly(h: Heap, size: nat)
    requires Fits(h, size)
    ensures var (h', p) := Kalloc(h, size);
            var rounded := (size + 15) / 16 * 16;
            && (p.Some? <==> h.ptr + rounded <= h.end)
            && (p.Some? ==> p.value == h.ptr && h' == Heap(h.ptr + rounded, h.end))
            && (p.None? ==> h' == h)
  {
    assert RoundDown(size + 15, 16) == (size + 15) / 16 * 16;
  }

  /** A concrete size that makes the allocator hand out the same memory twice. */
  lemma WrappingSizeReuses()
    ensures
      var h0 := Heap(0x8060_0000, 0x8080_0000);
      var (h1, a) := KallocPage(h0);
      var (h2, b) := Kalloc(h1, TWO_64 - PAGE_SIZE);
      var (h3, c) := KallocPage(h2);
      a.Some? && b.Some? && c.Some? && a == c
  {
    var h0 := Heap(0x8060_0000, 0x8080_0000);
    var h1 := KallocPage(h0).0;
    assert h1.ptr == 0x8060_1000;
    assert RoundDown(Wrap(TWO_64 - PAGE_SIZE + 15), 16) == TWO_64 - PAGE_SIZE;
    assert Kalloc(h1, TWO_64 - PAGE_SIZE).0.ptr == 0x8060_0000;
  }

  // ---------------------------------------------------------------- whole runs

  datatype Request = Bytes(size: nat) | Page
  datatype Block = Block(start: nat, size: nat)

  function Serve(h: Heap, r: Request): (Heap, Option<nat>) {
    match r
    case Bytes(size) => Kalloc(h, size)
    case Page => KallocPage(h)
  }

  function SizeOf(r: Request): nat {
    if r.Page? then PAGE_SIZE else r.size
  }

  function HeapAfter(h: Heap, rs: seq<Request>): Heap
    decreases |rs|
  {
    if rs == [] then h else HeapAfter(Serve(h, rs[0]).0, rs[1..])
  }

  /** The blocks handed out by a run of requests, in order. */
  function Blocks(h: Heap, rs: seq<Request>): seq<Block>
    decreases |rs|
  {
    if rs == [] then []
    else
      var (h', p) := Serve(h, rs[0]);
      (if p.Some? then [Block(p.value, SizeOf(rs[0]))] else []) + Blocks(h', rs[1..])
  }

  /** No request of the run makes the allocator's arithmetic wrap. */
  ghost predicate NoWrap(h: Heap, rs: seq<Request>)
    decreases |rs|
  {
    rs == [] || ((rs[0].Bytes? ==> Fits(h, rs[0].size)) && NoWrap(Serve(h, rs[0]).0, rs[1..]))
  }

  lemma ServeAdvances(h: Heap, r: Request)
    requires Valid(h) && (r.Bytes? ==> Fits(h, r.size))
    ensures var (h', p) := Serve(h, r);
            && Valid(h') && h.ptr <= h'.ptr && h'.end == h.end
            && (p.None? ==> h' == h)
            && (p.Some? ==> h.ptr <= p.value && p.value + SizeOf(r) <= h'.ptr)
            && (p.Some? && r.Page? ==> p.value % PAGE_SIZE == 0 && h'.ptr % PAGE_SIZE == 0)
  {
  }

  /** Every block lies in the heap, and each begins at or after the end of every earlier one. */
  lemma {:induction false} BlocksDisjoint(h: Heap, rs: seq<Request>)
    requires Valid(h) && NoWrap(h, rs)
    ensures var bs := Blocks(h, rs);
            && (forall b | b in bs :: h.ptr <= b.start && b.start + b.size <= HeapAfter(h, rs).ptr <= h.end)
            && (forall i, j | 0 <= i < j < |bs| :: bs[i].start + bs[i].size <= bs[j].start)
    ensures h.ptr <= HeapAfter(h, rs).ptr && Valid(HeapAfter(h, rs)) && HeapAfter(h, rs).end == h.end
    decreases |rs|
  {
    if rs != [] {
      ServeAdvances(h, rs[0]);
      BlocksDisjoint(Serve(h, rs[0]).0, rs[1..]);
    }
  }

  // ---------------------------------------------------------------- agent stacks

  /** `agent_setup_stack` maps the stack block from its start rounded up to a page. */
  function StackPa(stack: nat): nat {
    RoundUp(stack, PAGE_SIZE)
  }

  /** The mapped stack stays inside its block exactly when the block starts on a page. */
  lemma StackInsideExactly(stack: nat)
    ensures StackPa(stack) + AGENT_STACK_SIZE <= stack + AGENT_STACK_SIZE <==> stack % PAGE_SIZE == 0
  {
  }

  /** It does when the page allocation before it is followed by the stack allocation at once. */
  lemma StackInsideBlock(h: Heap)
    requires Valid(h)
    ensures var (h1, p) := KallocPage(h);
            var (h2, s) := Kalloc(h1, AGENT_STACK_SIZE);
            p.Some? && s.Some? ==>
              && StackPa(s.value) == s.value && s.value + AGENT_STACK_SIZE == h2.ptr
              && h.ptr <= p.value && p.value + PAGE_SIZE == s.value
  {
    ServeAdvances(h, Page);
    var (h1, p) := KallocPage(h);
    if p.Some? && h1.ptr + AGENT_STACK_SIZE <= h1.end {
      KallocExact(h1, AGENT_STACK_SIZE);
    }
  }

  /** A 16-byte allocation by another hart in between pushes the mapped stack over the next block. */
  lemma InterleavedStackOverlaps(h: Heap)
    requires Valid(h) && h.end - h.ptr >= 0x8000
    ensures
      var h1 := KallocPage(h).0;
      var h2 := Kalloc(h1, 16).0;
      var (h3, stack) := Kalloc(h2, AGENT_STACK_SIZE);
      var other := Kalloc(h3, 16).1;
      stack.Some? && other.Some? && StackPa(stack.value) <= other.value < StackPa(stack.value) + AGENT_STACK_SIZE
  {
    var p := RoundUp(h.ptr, PAGE_SIZE);
    KallocExact(Heap(p + PAGE_SIZE, h.end), 16);
    KallocExact(Heap(p + PAGE_SIZE + 16, h.end), AGENT_STACK_SIZE);
    KallocExact(Heap(p + PAGE_SIZE + 16 + AGENT_STACK_SIZE, h.end), 16);
    assert StackPa(p + PAGE_SIZE + 16) == p + 2 * PAGE_SIZE;
  }

  lemma KallocExact(h: Heap, size: nat)
    requires Valid(h) && size % 16 == 0 && h.ptr + size <= h.end
    ensures Kalloc(h, size) == (Heap(h.ptr + size, h.end), Some(h.ptr))
  {
    assert RoundDown(Wrap(size + 15), 16) == size;
  }

  /** kernel/mem.c as it runs. */
  class Allocator {
    var heapPtr: nat
    const heapEnd: nat

    function State(): Heap
      reads this
    {
      Heap(heapPtr, heapEnd)
    }

    /** `mem_init` */
    constructor (start: nat)
      requires 0 < start && start + HEAP_SIZE < TWO_64 - HEAP_SIZE
      ensures State() == Heap(start, start + HEAP_SIZE) && Valid(State())
    {
      heapPtr := start;
      heapEnd := start + HEAP_SIZE;
    }

    method Alloc(size: nat) returns (p: Option<nat>)
      requires size < TWO_64
      modifies this
      ensures (State(), p) == Kalloc(old(State()), size)
    {
      var rounded := Wrap(size + 15);
      rounded := rounded - rounded % 16;
      if Wrap(heapPtr + rounded) > heapEnd {
        return None;
      }
      p := Some(heapPtr);
      heapPtr := Wrap(heapPtr + rounded);
    }

    method AllocPage() returns (p: Option<nat>)
      requires Valid(State())
      modifies this
      ensures (State(), p) == KallocPage(old(State()))
    {
      var q := heapPtr + PAGE_SIZE - 1;
      q := q - q % PAGE_SIZE;
      if q + PAGE_SIZE > heapEnd {
        return None;
      }
      p := Some(q);
      heapPtr := q + PAGE_SIZE;
    }
  }
}
