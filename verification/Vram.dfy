/** The VRAM bump allocator. */
module Vram {
  import opened Words

  const VRAM_USER_BASE: u64 := 0x1_0000
  const VRAM_TOTAL_SIZE: u64 := 1024 * 1024 * 1024
  const KERNARG_BASE: u64 := 0
  const KERNARG_SIZE := 4096

  /** The size rounded up to 4 KB as a mathematical integer. */
  function RoundUp(size: nat): (r: nat)
    ensures r % 4096 == 0 && size <= r < size + 4096
  {
    (size + 4095) / 4096 * 4096
  }

  /** `(size + PAGE_SIZE_4K - 1) & ~(PAGE_SIZE_4K - 1)` in size_t arithmetic. */
  function AlignedSize(size: u64): u64 {
    var x := Add64(size, 4095);
    x - x % 4096
  }

  /** The heap pointer of an initialised allocator. */
  predicate IsHeap(heap: u64) {
    VRAM_USER_BASE <= heap <= VRAM_TOTAL_SIZE && heap % 4096 == 0
  }

  /** fpgagpu_vram_alloc on an initialised allocator: the address (0 on failure) and the new heap pointer. */
  function AllocFrom(heap: u64, size: u64): (u64, u64) {
    if size == 0 || Add64(heap, AlignedSize(size)) > VRAM_TOTAL_SIZE then (0, heap)
    else (heap, Add64(heap, AlignedSize(size)))
  }

  /** What an allocation owes its caller: either it fails and changes nothing, or it hands out the next
      whole pages below the end of the memory. */
  predicate Sound(heap: u64, size: u64, addr: u64, heap': u64) {
    || (addr == 0 && heap' == heap)
    || (addr == heap && size > 0 && heap' == heap + RoundUp(size) && heap' <= VRAM_TOTAL_SIZE)
  }

  /** Neither the rounding nor the sum with the heap pointer wraps. */
  predicate NoWrap(heap: u64, size: u64) {
    heap + RoundUp(size) < TWO64
  }

  /** The size_t sums are trustworthy exactly when they do not wrap. */
  lemma AllocSoundIff(heap: u64, size: u64)
    requires IsHeap(heap)
    ensures Sound(heap, size, AllocFrom(heap, size).0, AllocFrom(heap, size).1) <==> NoWrap(heap, size)
  {
    var x := Add64(size, 4095);
    if size + 4095 < TWO64 {
      assert x - x % 4096 == RoundUp(size);
    } else {
      assert RoundUp(size) == TWO64 && AlignedSize(size) == 0;
    }
  }

  lemma AllocatedSize(heap: u64, size: u64, heap': u64)
    requires IsHeap(heap) && NoWrap(heap, size) && size > 0 && AllocFrom(heap, size) == (heap, heap')
    ensures size < TWO32 && heap' == heap + RoundUp(size) && IsHeap(heap')
  {
    AllocSoundIff(heap, size);
  }

  /** An allocation whose sums do not wrap, in numbers: it succeeds exactly when the size is not zero and its
      pages end within the gigabyte. */
  lemma AllocInNumbers(heap: u64, size: u64)
    requires size + 4095 < 0x1_0000_0000_0000_0000 && heap + size + 4095 < 0x1_0000_0000_0000_0000
    ensures var end := heap + (size + 4095) / 4096 * 4096;
            AllocFrom(heap, size) == if size == 0 || end > 0x4000_0000 then (0, heap) else (heap, end)
  {
    var x := size + 4095;
    assert x - x % 4096 == x / 4096 * 4096;
  }

  /** One such size: it "succeeds", reserving nothing. */
  lemma AllocWraps()
    ensures AllocFrom(VRAM_USER_BASE, TWO64 - 1) == (VRAM_USER_BASE, VRAM_USER_BASE)
    ensures !Sound(VRAM_USER_BASE, TWO64 - 1, VRAM_USER_BASE, VRAM_USER_BASE)
  {}

  /** What allocations between two initialisations hand out, and the heap pointer they leave;
      frees change nothing and need no place in the sequence. */
  function Allocate(heap: u64, sizes: seq<u64>): (seq<u64>, u64)
    decreases |sizes|
  {
    if sizes == [] then ([], heap)
    else
      var (addr, heap1) := AllocFrom(heap, sizes[0]);
      var (addrs, heap2) := Allocate(heap1, sizes[1..]);
      ([addr] + addrs, heap2)
  }

  /** No allocation of the sequence wraps. */
  predicate NoneWraps(heap: u64, sizes: seq<u64>)
    decreases |sizes|
  {
    sizes != [] ==> NoWrap(heap, sizes[0]) && NoneWraps(AllocFrom(heap, sizes[0]).1, sizes[1..])
  }

  lemma AllocStep(heap: u64, size: u64)
    requires IsHeap(heap) && NoWrap(heap, size)
    ensures var (addr, heap') := AllocFrom(heap, size);
            && IsHeap(heap') && heap <= heap'
            && (addr == 0 || (addr == heap && heap' == heap + RoundUp(size)))
  {
    AllocSoundIff(heap, size);
  }

  /** Every successful range is page aligned and inside the user part of the memory, and no two share a
      byte (nor the rounding behind one of them); the kernel argument page is disjoint from all. */
  lemma {:induction false} RangesDisjoint(heap: u64, sizes: seq<u64>)
    requires IsHeap(heap) && NoneWraps(heap, sizes)
    ensures var (addrs, heap') := Allocate(heap, sizes);
            && |addrs| == |sizes| && heap <= heap' && IsHeap(heap')
            && (forall i | 0 <= i < |addrs| && addrs[i] != 0 ::
                  heap <= addrs[i] && addrs[i] % 4096 == 0 && addrs[i] + RoundUp(sizes[i]) <= heap'
                  && addrs[i] >= KERNARG_BASE + KERNARG_SIZE)
            && (forall i, j | 0 <= i < j < |addrs| && addrs[i] != 0 && addrs[j] != 0 ::
                  addrs[i] + RoundUp(sizes[i]) <= addrs[j])
    decreases |sizes|
  {
    if sizes != [] {
      AllocStep(heap, sizes[0]);
      var (addr, heap1) := AllocFrom(heap, sizes[0]);
      RangesDisjoint(heap1, sizes[1..]);
    }
  }

  class Allocator {
    var heapPtr: u64
    var initialized: bool

    constructor ()
      ensures Heap() == 0x1_0000
    {
      heapPtr, initialized := VRAM_USER_BASE, false;
    }

    /** The heap pointer the next allocation works from. */
    function Heap(): u64
      reads this
    {
      if initialized then heapPtr else VRAM_USER_BASE
    }

    /** fpgagpu_vram_init */
    method Init()
      modifies this
      ensures initialized && Heap() == 0x1_0000
    {
      heapPtr := VRAM_USER_BASE;
      initialized := true;
    }

    /** fpgagpu_vram_alloc */
    method Alloc(size: u64) returns (addr: u64)
      modifies this
      ensures (addr, Heap()) == AllocFrom(old(Heap()), size)
    {
      if size == 0 { return 0; }
      if !initialized {
        heapPtr := VRAM_USER_BASE;
        initialized := true;
      }
      var alignedSize := AlignedSize(size);
      if Add64(heapPtr, alignedSize) > VRAM_TOTAL_SIZE { return 0; }
      addr := heapPtr;
      heapPtr := Add64(heapPtr, alignedSize);
    }

    /** fpgagpu_vram_free: memory comes back only with the next Init. */
    method Free(addr: u64, size: u64)
      ensures Heap() == old(Heap())
    {}
  }
}
