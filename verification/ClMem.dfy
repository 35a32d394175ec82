/** The buffer calls of the runtime library, over the allocator and the driver's DMA request. */
module ClMem {
  import opened Words
  import opened DmaMemory
  import opened DmaPages
  import opened DmaDevice
  import opened Vram
  import opened ClStore

  datatype ClStatus =
    | CL_SUCCESS | CL_INVALID_CONTEXT | CL_INVALID_BUFFER_SIZE | CL_MEM_OBJECT_ALLOCATION_FAILURE
    | CL_OUT_OF_HOST_MEMORY | CL_INVALID_MEM_OBJECT | CL_INVALID_COMMAND_QUEUE | CL_INVALID_VALUE
    | CL_OUT_OF_RESOURCES | CL_INVALID_KERNEL | CL_INVALID_PROGRAM_EXECUTABLE | CL_INVALID_WORK_DIMENSION
    | CL_INVALID_KERNEL_ARGS | CL_INVALID_ARG_INDEX | CL_INVALID_ARG_VALUE

  /** The request behind a transfer call; the size passes through a cast to uint32_t. */
  function RequestFor(direction: u32, size: u64, ddr3: u64, ptr: u64): Request {
    Request(direction, size % TWO32, ddr3, ptr)
  }

  /** The answers of the kernel agree with the process's page table. */
  ghost predicate Truthful(p: Process, r: Request, a: Answers) {
    && a.Honest(r)
    && (r.Accepted() ==> forall i | 0 <= i < r.Pages() :: a.frames[i] == p.frame(r.vaddr / PAGE_SIZE + i))
  }

  /** The check `offset + size > buffer->size`, in size_t arithmetic. */
  predicate PassesBounds(b: Buffer, offset: u64, size: u64) {
    Add64(offset, size) <= b.size
  }

  lemma BoundsInNumbers(b: Buffer, offset: u64, size: u64)
    ensures PassesBounds(b, offset, size) <==> (offset + size) % 0x1_0000_0000_0000_0000 <= b.size
  {}

  /** The check means what it says exactly when the sum does not wrap. */
  lemma BoundsCheckIff(b: Buffer, offset: u64, size: u64)
    requires PassesBounds(b, offset, size)
    ensures offset + size <= b.size <==> offset + size < TWO64
  {}

  /** One pair for which it does not. */
  lemma BoundsCheckWraps()
    ensures PassesBounds(Buffer(1, 0x1_0000, 1), TWO64 - 1, 2) && (TWO64 - 1) + 2 > 1
  {}

  lemma SamePage(v: nat, page: nat, rest: nat)
    requires v == page * PAGE_SIZE + rest
    ensures v / PAGE_SIZE == page + rest / PAGE_SIZE && v % PAGE_SIZE == rest % PAGE_SIZE
  {}

  /** The bytes behind a virtual range, page by page and through the page table. */
  lemma SameRange(p: Process, frames: seq<nat>, page: nat, offset: nat, vaddr: u64, size: u32)
    requires vaddr == page * PAGE_SIZE + offset && |frames| == PageCount(offset, size)
    requires forall i | 0 <= i < |frames| :: frames[i] == p.frame(page + i)
    ensures RangeBytes(frames, offset, size) == p.Range(vaddr, size)
  {
    forall j | 0 <= j < size
      ensures RangeBytes(frames, offset, size)[j] == p.Range(vaddr, size)[j]
    {
      SamePage(vaddr + j, page, offset + j);
      var i := (offset + j) / PAGE_SIZE;
      assert frames[i] == p.frame(page + i);
      assert p.Range(vaddr, size)[j] == p.Where(vaddr + j) == Loc(frames[i], (offset + j) % PAGE_SIZE);
    }
  }

  /** The bytes a truthful request transfers are those of the caller's virtual range. */
  lemma RangeOfRequest(p: Process, r: Request, a: Answers)
    requires r.Accepted() && Truthful(p, r, a)
    ensures HostRange(r, a) == p.Range(r.vaddr, r.size)
  {
    SameRange(p, a.frames, r.vaddr / PAGE_SIZE, r.Offset(), r.vaddr, r.size);
  }

  /** A sound allocation leaves room for the new buffer beside the live ones. */
  lemma Allocated(heap: u64, buffers: map<nat, Buffer>, size: u64, block: nat, heap': u64)
    requires Laid(heap, buffers) && block !in buffers && 0 < size && NoWrap(heap, size) && (heap, heap') == AllocFrom(heap, size)
    ensures size < TWO32 && heap <= heap' && Laid(heap', buffers) && Laid(heap', buffers[block := Buffer(size, heap, 1)])
  {
    AllocatedSize(heap, size, heap');
  }

  /** The memory effect of a successful request. */
  ghost predicate Moved(p: Process, r: Request, mem: Memory, mem': Memory) {
    r.Accepted() && Copied(r.direction == DMA_TO_DEVICE, mem, mem', p.Range(r.vaddr, r.size), r.ddr3)
  }

  lemma UploadMoves(p: Process, size: u32, ddr3: u64, ptr: u64, mem: Memory, mem': Memory)
    requires Moved(p, RequestFor(DMA_TO_DEVICE, size, ddr3, ptr), mem, mem')
    ensures Copied(true, mem, mem', p.Range(ptr, size), ddr3)
  {
    assert size % TWO32 == size;
  }

  /** An allocation, followed by the upload of the initial contents if there are any. */
  lemma CreateSteps(p: Process, s: State, block: nat, size: u64, hostPtr: u64, s': State)
    requires Inv(s) && block !in s.buffers && 0 < size && NoWrap(s.heap, size) && (s.heap, s'.heap) == AllocFrom(s.heap, size)
    requires (hostPtr == 0 || p.Owns(hostPtr, size)) && s'.buffers == s.buffers[block := Buffer(size, s.heap, 1)]
    requires if hostPtr == 0 then s'.mem == s.mem else Moved(p, RequestFor(DMA_TO_DEVICE, size, s.heap, hostPtr), s.mem, s'.mem)
    ensures StepCreate(p, s, block, size, hostPtr, s')
  {
    AllocatedSize(s.heap, size, s'.heap);
    if hostPtr != 0 { UploadMoves(p, size, s.heap, hostPtr, s.mem, s'.mem); }
  }

  /** A request behind a write or read whose bounds check meant what it says is that step. */
  lemma WriteSteps(p: Process, s: State, h: nat, offset: u64, size: u64, ptr: u64, mem': Memory)
    requires Inv(s) && h in s.buffers && PassesBounds(s.buffers[h], offset, size) && offset + size < TWO64 && p.Owns(ptr, size)
    requires Moved(p, RequestFor(DMA_TO_DEVICE, size, Add64(s.buffers[h].ddr3, offset), ptr), s.mem, mem')
    ensures size < TWO32 && StepWrite(p, s, h, offset, size, ptr, s.(mem := mem'))
  {
    assert size % TWO32 == size;
  }

  lemma ReadSteps(p: Process, s: State, h: nat, offset: u64, size: u64, ptr: u64, mem': Memory)
    requires Inv(s) && h in s.buffers && PassesBounds(s.buffers[h], offset, size) && offset + size < TWO64 && p.Owns(ptr, size)
    requires Moved(p, RequestFor(DMA_FROM_DEVICE, size, Add64(s.buffers[h].ddr3, offset), ptr), s.mem, mem')
    ensures size < TWO32 && StepRead(p, s, h, offset, size, ptr, s.(mem := mem'))
  {
    assert size % TWO32 == size;
  }

  /** The two requests behind a copy. */
  lemma CopySteps(p: Process, s: State, src: nat, dst: nat, so: u64, do: u64, size: u64, bounce: u64, mid: Memory, mem': Memory)
    requires Inv(s) && src in s.buffers && dst in s.buffers
    requires PassesBounds(s.buffers[src], so, size) && PassesBounds(s.buffers[dst], do, size)
    requires so + size < TWO64 && do + size < TWO64 && p.OwnsNone(bounce, size % TWO32)
    requires Moved(p, RequestFor(DMA_FROM_DEVICE, size, Add64(s.buffers[src].ddr3, so), bounce), s.mem, mid)
    requires Moved(p, RequestFor(DMA_TO_DEVICE, size, Add64(s.buffers[dst].ddr3, do), bounce), mid, mem')
    ensures size < TWO32 && StepCopy(p, s, src, dst, so, do, size, bounce, s.(mem := mem'))
  {
    assert size % TWO32 == size;
  }

  /** Only the host range of a request differs. */
  ghost predicate Scratched(p: Process, r: Request, mem: Memory, mem': Memory) {
    mem'.ddr3 == mem.ddr3 && HostChangedOnly(p, mem, mem', r.vaddr, r.size)
  }

  class Runtime {
    const dev: Device
    const vram: Allocator
    var process: Process
    var buffers: map<nat, Buffer>

    ghost function View(): State
      reads this, dev, vram
    {
      State(dev.mem, vram.Heap(), buffers)
    }

    ghost predicate Valid()
      reads this, dev, vram
    {
      dev.Valid() && process.Unaliased() && Laid(vram.Heap(), buffers) && 0 !in buffers
    }

    constructor (dev: Device, vram: Allocator, process: Process)
      requires dev.Valid() && process.Unaliased() && vram.Heap() == VRAM_USER_BASE
      ensures Valid() && View() == State(dev.mem, VRAM_USER_BASE, map[])
      ensures this.dev == dev && this.vram == vram && this.process == process
    {
      this.dev, this.vram, this.process, buffers := dev, vram, process, map[];
    }

    /** The ioctl every transfer ends in. */
    method Transfer(r: Request, a: Answers) returns (ok: bool)
      requires dev.Valid() && Truthful(process, r, a)
      modifies dev, dev.descRing, dev.pinnedPages
      ensures dev.Valid() && ok == (Outcome(r, a) == Success)
      ensures ok ==> Moved(process, r, old(dev.mem), dev.mem)
      ensures !ok && a.busyPolls < POLL_LIMIT ==> dev.mem == old(dev.mem)
    {
      var st := dev.DmaTransfer(r, a);
      ok := st == Success;
      if ok {
        RangeOfRequest(process, r, a);
      }
    }

    /** How clCreateBuffer ends. */
    function CreateCode(context: bool, size: u64, hostPtr: u64, mallocs: bool, a: Answers): ClStatus
      reads this, vram
    {
      if !context then CL_INVALID_CONTEXT
      else if size == 0 then CL_INVALID_BUFFER_SIZE
      else if AllocFrom(vram.Heap(), size).0 == 0 then CL_MEM_OBJECT_ALLOCATION_FAILURE
      else if !mallocs then CL_OUT_OF_HOST_MEMORY
      else if hostPtr != 0 && Outcome(RequestFor(DMA_TO_DEVICE, size, vram.Heap(), hostPtr), a) != Success
      then CL_MEM_OBJECT_ALLOCATION_FAILURE
      else CL_SUCCESS
    }

    /** The upload of the initial contents, when there are any. */
    method Upload(r: Request, a: Answers) returns (ok: bool)
      requires dev.Valid() && Truthful(process, r, a)
      modifies dev, dev.descRing, dev.pinnedPages
      ensures dev.Valid() && ok == (r.vaddr == 0 || Outcome(r, a) == Success)
      ensures ok ==> if r.vaddr == 0 then dev.mem == old(dev.mem) else Moved(process, r, old(dev.mem), dev.mem)
      ensures !ok && a.busyPolls < POLL_LIMIT ==> dev.mem == old(dev.mem)
    {
      if r.vaddr == 0 { return true; }
      ok := Transfer(r, a);
    }

    /** The code in plain sums, for a size whose sums do not wrap. */
    lemma CreateCodeInNumbers(context: bool, size: u64, hostPtr: u64, mallocs: bool, a: Answers)
      requires Valid() && size + 4095 < 0x1_0000_0000_0000_0000 && vram.Heap() + size + 4095 < 0x1_0000_0000_0000_0000
      ensures var st := CreateCode(context, size, hostPtr, mallocs, a);
              var room := vram.Heap() + (size + 4095) / 4096 * 4096 <= 0x4000_0000;
              && (st == CL_INVALID_CONTEXT <==> !context)
              && (st == CL_INVALID_BUFFER_SIZE <==> context && size == 0)
              && (context && size > 0 && !room ==> st == CL_MEM_OBJECT_ALLOCATION_FAILURE)
              && (context && size > 0 && room ==>
                    st == if !mallocs then CL_OUT_OF_HOST_MEMORY
                          else if hostPtr == 0 || Outcome(Request(0, size, vram.Heap(), hostPtr), a) == Success then CL_SUCCESS
                          else CL_MEM_OBJECT_ALLOCATION_FAILURE)
    {
      AllocInNumbers(vram.Heap(), size);
      if size < TWO32 { assert size % TWO32 == size; }
    }

    /** clCreateBuffer; `hostPtr` is null unless CL_MEM_COPY_HOST_PTR is given, `block` is what malloc
        returns when it succeeds. */
    method CreateBuffer(context: bool, size: u64, hostPtr: u64, mallocs: bool, block: nat, a: Answers)
      returns (st: ClStatus, handle: nat)
      requires Valid() && block != 0 && block !in buffers
      requires Truthful(process, RequestFor(DMA_TO_DEVICE, size, vram.Heap(), hostPtr), a)
      modifies this, vram, dev, dev.descRing, dev.pinnedPages
      ensures st == old(CreateCode(context, size, hostPtr, mallocs, a)) && process == old(process)
      ensures context && size > 0 && mallocs && old(vram.Heap()) + (size + 4095) / 4096 * 4096 <= 0x4000_0000
              && (hostPtr == 0 || Outcome(Request(0, size, old(vram.Heap()), hostPtr), a) == Success) ==>
                st == CL_SUCCESS
      ensures context && size > 0 && 0x4000_0000 < old(vram.Heap()) + (size + 4095) / 4096 * 4096 < 0x1_0000_0000_0000_0000 ==>
                st == CL_MEM_OBJECT_ALLOCATION_FAILURE
      ensures handle == if st == CL_SUCCESS then block else 0
      ensures NoWrap(old(vram.Heap()), size) ==> Valid()
      ensures st == CL_SUCCESS && NoWrap(old(vram.Heap()), size) && (hostPtr == 0 || process.Owns(hostPtr, size)) ==>
                StepCreate(process, old(View()), block, size, hostPtr, View())
      ensures st != CL_SUCCESS && NoWrap(old(vram.Heap()), size) && a.busyPolls < POLL_LIMIT ==>
                StepFailed(process, old(View()), 0, 0, View())
    {
      if vram.Heap() + size + 4095 < 0x1_0000_0000_0000_0000 { CreateCodeInNumbers(context, size, hostPtr, mallocs, a); }
      if !context { return CL_INVALID_CONTEXT, 0; }
      if size == 0 { return CL_INVALID_BUFFER_SIZE, 0; }
      ghost var s := View();
      var addr := vram.Alloc(size);
      if addr == 0 { return CL_MEM_OBJECT_ALLOCATION_FAILURE, 0; }
      if NoWrap(s.heap, size) { Allocated(s.heap, buffers, size, block, vram.Heap()); }
      if !mallocs { return CL_OUT_OF_HOST_MEMORY, 0; }
      var ok := Upload(RequestFor(DMA_TO_DEVICE, size, addr, hostPtr), a);
      if !ok { return CL_MEM_OBJECT_ALLOCATION_FAILURE, 0; }
      buffers := buffers[block := Buffer(size, addr, 1)];
      if NoWrap(s.heap, size) && (hostPtr == 0 || process.Owns(hostPtr, size)) {
        CreateSteps(process, s, block, size, hostPtr, View());
      }
      return CL_SUCCESS, block;
    }

    /** clReleaseMemObject */
    method ReleaseMemObject(h: nat) returns (st: ClStatus)
      requires Valid() && (h == 0 || h in buffers)
      modifies this`buffers
      ensures Valid() && st == if h == 0 then CL_INVALID_MEM_OBJECT else CL_SUCCESS
      ensures st == CL_SUCCESS ==> StepRelease(old(View()), h, View())
      ensures st != CL_SUCCESS ==> View() == old(View())
    {
      if h == 0 { return CL_INVALID_MEM_OBJECT; }
      var b := buffers[h];
      b := b.(refCount := b.refCount - 1);
      buffers := buffers[h := b];
      if b.refCount == 0 {
        vram.Free(b.ddr3, b.size);
        buffers := buffers - {h};
      }
      return CL_SUCCESS;
    }

    /** The argument checks the two transfer calls share. */
    function TransferCode(queue: bool, h: nat, offset: u64, size: u64, ptr: u64, direction: u32, a: Answers): ClStatus
      reads this
    {
      if !queue then CL_INVALID_COMMAND_QUEUE
      else if h !in buffers then CL_INVALID_MEM_OBJECT
      else if ptr == 0 then CL_INVALID_VALUE
      else if !PassesBounds(buffers[h], offset, size) then CL_INVALID_VALUE
      else if Outcome(RequestFor(direction, size, Add64(buffers[h].ddr3, offset), ptr), a) != Success then CL_OUT_OF_RESOURCES
      else CL_SUCCESS
    }

    /** The code in plain sums. */
    lemma TransferCodeInNumbers(queue: bool, h: nat, offset: u64, size: u64, ptr: u64, direction: u32, a: Answers)
      requires Valid()
      ensures var st := TransferCode(queue, h, offset, size, ptr, direction, a);
              && (st == CL_INVALID_COMMAND_QUEUE <==> !queue)
              && (st == CL_INVALID_MEM_OBJECT <==> queue && h !in buffers)
              && (st == CL_INVALID_VALUE <==>
                    queue && h in buffers && (ptr == 0 || (offset + size) % 0x1_0000_0000_0000_0000 > buffers[h].size))
              && (queue && h in buffers && ptr != 0 && offset + size <= buffers[h].size ==>
                    st == if Outcome(Request(direction, size, buffers[h].ddr3 + offset, ptr), a) == Success then CL_SUCCESS
                          else CL_OUT_OF_RESOURCES)
    {
      if h in buffers && offset + size <= buffers[h].size { InsideIsSmall(h, offset, size); }
    }

    /** What fits a live buffer needs no truncation and wraps nowhere. */
    lemma InsideIsSmall(h: nat, offset: u64, size: u64)
      requires Valid() && h in buffers && offset + size <= buffers[h].size
      ensures buffers[h].ddr3 + buffers[h].size <= VRAM_TOTAL_SIZE
      ensures size % TWO32 == size && Add64(buffers[h].ddr3, offset) == buffers[h].ddr3 + offset
    {
      var b := buffers[h];
      assert b.ddr3 + b.size <= vram.Heap();
    }

    /** clEnqueueWriteBuffer */
    method WriteBuffer(queue: bool, h: nat, offset: u64, size: u64, ptr: u64, a: Answers) returns (st: ClStatus)
      requires Valid() && (h == 0 || h in buffers)
      requires h in buffers ==> Truthful(process, RequestFor(DMA_TO_DEVICE, size, Add64(buffers[h].ddr3, offset), ptr), a)
      modifies dev, dev.descRing, dev.pinnedPages
      ensures Valid() && st == old(TransferCode(queue, h, offset, size, ptr, DMA_TO_DEVICE, a))
      ensures st == CL_INVALID_VALUE <==>
              queue && h in buffers && (ptr == 0 || (offset + size) % 0x1_0000_0000_0000_0000 > buffers[h].size)
      ensures queue && h in buffers && ptr != 0 && offset + size <= buffers[h].size ==>
                st == if Outcome(Request(0, size, buffers[h].ddr3 + offset, ptr), a) == Success then CL_SUCCESS
                      else CL_OUT_OF_RESOURCES
      ensures st == CL_SUCCESS && offset + size < TWO64 && process.Owns(ptr, size) ==>
                size < TWO32 && StepWrite(process, old(View()), h, offset, size, ptr, View())
      ensures st != CL_SUCCESS && a.busyPolls < POLL_LIMIT ==> View() == old(View())
    {
      TransferCodeInNumbers(queue, h, offset, size, ptr, DMA_TO_DEVICE, a);
      if !queue { return CL_INVALID_COMMAND_QUEUE; }
      if h == 0 { return CL_INVALID_MEM_OBJECT; }
      if ptr == 0 { return CL_INVALID_VALUE; }
      if Add64(offset, size) > buffers[h].size { return CL_INVALID_VALUE; }
      ghost var s := View();
      var ok := Transfer(RequestFor(DMA_TO_DEVICE, size, Add64(buffers[h].ddr3, offset), ptr), a);
      if !ok { return CL_OUT_OF_RESOURCES; }
      if offset + size < TWO64 && process.Owns(ptr, size) { WriteSteps(process, s, h, offset, size, ptr, dev.mem); }
      return CL_SUCCESS;
    }

    /** clEnqueueReadBuffer */
    method ReadBuffer(queue: bool, h: nat, offset: u64, size: u64, ptr: u64, a: Answers) returns (st: ClStatus)
      requires Valid() && (h == 0 || h in buffers)
      requires h in buffers ==> Truthful(process, RequestFor(DMA_FROM_DEVICE, size, Add64(buffers[h].ddr3, offset), ptr), a)
      modifies dev, dev.descRing, dev.pinnedPages
      ensures Valid() && st == old(TransferCode(queue, h, offset, size, ptr, DMA_FROM_DEVICE, a))
      ensures st == CL_INVALID_VALUE <==>
              queue && h in buffers && (ptr == 0 || (offset + size) % 0x1_0000_0000_0000_0000 > buffers[h].size)
      ensures queue && h in buffers && ptr != 0 && offset + size <= buffers[h].size ==>
                st == if Outcome(Request(1, size, buffers[h].ddr3 + offset, ptr), a) == Success then CL_SUCCESS
                      else CL_OUT_OF_RESOURCES
      ensures st == CL_SUCCESS && offset + size < TWO64 && process.Owns(ptr, size) ==>
                size < TWO32 && StepRead(process, old(View()), h, offset, size, ptr, View())
      ensures st != CL_SUCCESS && a.busyPolls < POLL_LIMIT ==> View() == old(View())
    {
      TransferCodeInNumbers(queue, h, offset, size, ptr, DMA_FROM_DEVICE, a);
      if !queue { return CL_INVALID_COMMAND_QUEUE; }
      if h == 0 { return CL_INVALID_MEM_OBJECT; }
      if ptr == 0 { return CL_INVALID_VALUE; }
      if Add64(offset, size) > buffers[h].size { return CL_INVALID_VALUE; }
      ghost var s := View();
      var ok := Transfer(RequestFor(DMA_FROM_DEVICE, size, Add64(buffers[h].ddr3, offset), ptr), a);
      if !ok { return CL_OUT_OF_RESOURCES; }
      if offset + size < TWO64 && process.Owns(ptr, size) { ReadSteps(process, s, h, offset, size, ptr, dev.mem); }
      return CL_SUCCESS;
    }

    /** The two requests of a copy. */
    function CopyIn(h: nat, offset: u64, size: u64, bounce: u64): Request
      requires h in buffers
      reads this
    {
      RequestFor(DMA_FROM_DEVICE, size, Add64(buffers[h].ddr3, offset), bounce)
    }

    function CopyOut(h: nat, offset: u64, size: u64, bounce: u64): Request
      requires h in buffers
      reads this
    {
      RequestFor(DMA_TO_DEVICE, size, Add64(buffers[h].ddr3, offset), bounce)
    }

    /** Both transfers of a copy; the second is not started when the first fails. */
    method Bounce(r1: Request, r2: Request, a1: Answers, a2: Answers) returns (ok: bool, ghost mid: Memory)
      requires dev.Valid() && Truthful(process, r1, a1) && Truthful(process, r2, a2)
      requires r1.direction == DMA_FROM_DEVICE
      modifies dev, dev.descRing, dev.pinnedPages
      ensures dev.Valid() && ok == (Outcome(r1, a1) == Success && Outcome(r2, a2) == Success)
      ensures ok ==> Moved(process, r1, old(dev.mem), mid) && Moved(process, r2, mid, dev.mem)
      ensures !ok && a1.busyPolls < POLL_LIMIT && a2.busyPolls < POLL_LIMIT ==> Scratched(process, r1, old(dev.mem), dev.mem)
    {
      ok := Transfer(r1, a1);
      mid := dev.mem;
      if ok {
        ok := Transfer(r2, a2);
      }
    }

    /** How clEnqueueCopyBuffer ends. */
    function CopyCode(queue: bool, src: nat, dst: nat, srcOffset: u64, dstOffset: u64, size: u64,
                      mallocs: bool, bounce: u64, a1: Answers, a2: Answers): ClStatus
      reads this
    {
      if !queue then CL_INVALID_COMMAND_QUEUE
      else if src !in buffers || dst !in buffers then CL_INVALID_MEM_OBJECT
      else if !PassesBounds(buffers[src], srcOffset, size) then CL_INVALID_VALUE
      else if !PassesBounds(buffers[dst], dstOffset, size) then CL_INVALID_VALUE
      else if !mallocs then CL_OUT_OF_HOST_MEMORY
      else if Outcome(CopyIn(src, srcOffset, size, bounce), a1) != Success then CL_OUT_OF_RESOURCES
      else if Outcome(CopyOut(dst, dstOffset, size, bounce), a2) != Success then CL_OUT_OF_RESOURCES
      else CL_SUCCESS
    }

    /** The code in plain sums. */
    lemma CopyCodeInNumbers(queue: bool, src: nat, dst: nat, srcOffset: u64, dstOffset: u64, size: u64,
                            mallocs: bool, bounce: u64, a1: Answers, a2: Answers)
      requires Valid()
      ensures var st := CopyCode(queue, src, dst, srcOffset, dstOffset, size, mallocs, bounce, a1, a2);
              && (st == CL_INVALID_COMMAND_QUEUE <==> !queue)
              && (st == CL_INVALID_MEM_OBJECT <==> queue && (src !in buffers || dst !in buffers))
              && (st == CL_INVALID_VALUE <==>
                    queue && src in buffers && dst in buffers
                    && ((srcOffset + size) % 0x1_0000_0000_0000_0000 > buffers[src].size
                        || (dstOffset + size) % 0x1_0000_0000_0000_0000 > buffers[dst].size))
              && (queue && src in buffers && dst in buffers
                  && srcOffset + size <= buffers[src].size && dstOffset + size <= buffers[dst].size ==>
                    st == if !mallocs then CL_OUT_OF_HOST_MEMORY
                          else if Outcome(Request(1, size, buffers[src].ddr3 + srcOffset, bounce), a1) == Success
                                  && Outcome(Request(0, size, buffers[dst].ddr3 + dstOffset, bounce), a2) == Success
                          then CL_SUCCESS
                          else CL_OUT_OF_RESOURCES)
    {
      if src in buffers && dst in buffers {
        BoundsInNumbers(buffers[src], srcOffset, size);
        BoundsInNumbers(buffers[dst], dstOffset, size);
        if srcOffset + size <= buffers[src].size && dstOffset + size <= buffers[dst].size {
          CopyRequests(src, dst, srcOffset, dstOffset, size, bounce);
        }
      }
    }

    lemma CopyRequests(src: nat, dst: nat, srcOffset: u64, dstOffset: u64, size: u64, bounce: u64)
      requires Valid() && src in buffers && dst in buffers
      requires srcOffset + size <= buffers[src].size && dstOffset + size <= buffers[dst].size
      ensures size < TWO32 && buffers[src].ddr3 + srcOffset < TWO64 && buffers[dst].ddr3 + dstOffset < TWO64
      ensures CopyIn(src, srcOffset, size, bounce) == Request(1, size, buffers[src].ddr3 + srcOffset, bounce)
      ensures CopyOut(dst, dstOffset, size, bounce) == Request(0, size, buffers[dst].ddr3 + dstOffset, bounce)
    {
      InsideIsSmall(src, srcOffset, size);
      InsideIsSmall(dst, dstOffset, size);
    }

    /** clEnqueueCopyBuffer; `bounce` is what posix_memalign returns when it succeeds. */
    method CopyBuffer(queue: bool, src: nat, dst: nat, srcOffset: u64, dstOffset: u64, size: u64,
                      mallocs: bool, bounce: u64, a1: Answers, a2: Answers) returns (st: ClStatus)
      requires Valid() && (src == 0 || src in buffers) && (dst == 0 || dst in buffers)
      requires mallocs ==> process.OwnsNone(bounce, size % TWO32)
      requires src in buffers ==> Truthful(process, CopyIn(src, srcOffset, size, bounce), a1)
      requires dst in buffers ==> Truthful(process, CopyOut(dst, dstOffset, size, bounce), a2)
      modifies dev, dev.descRing, dev.pinnedPages
      ensures Valid() && st == old(CopyCode(queue, src, dst, srcOffset, dstOffset, size, mallocs, bounce, a1, a2))
      ensures st == CL_INVALID_VALUE <==>
              queue && src in buffers && dst in buffers
              && ((srcOffset + size) % 0x1_0000_0000_0000_0000 > buffers[src].size
                  || (dstOffset + size) % 0x1_0000_0000_0000_0000 > buffers[dst].size)
      ensures queue && src in buffers && dst in buffers && mallocs
              && srcOffset + size <= buffers[src].size && dstOffset + size <= buffers[dst].size
              && Outcome(Request(1, size, buffers[src].ddr3 + srcOffset, bounce), a1) == Success
              && Outcome(Request(0, size, buffers[dst].ddr3 + dstOffset, bounce), a2) == Success ==>
                st == CL_SUCCESS
      ensures st == CL_SUCCESS && srcOffset + size < TWO64 && dstOffset + size < TWO64 ==>
                size < TWO32 && StepCopy(process, old(View()), src, dst, srcOffset, dstOffset, size, bounce, View())
      ensures st != CL_SUCCESS && a1.busyPolls < POLL_LIMIT && a2.busyPolls < POLL_LIMIT ==>
                StepFailed(process, old(View()), bounce, if mallocs then size % TWO32 else 0, View())
    {
      CopyCodeInNumbers(queue, src, dst, srcOffset, dstOffset, size, mallocs, bounce, a1, a2);
      if !queue { return CL_INVALID_COMMAND_QUEUE; }
      if src == 0 || dst == 0 { return CL_INVALID_MEM_OBJECT; }
      if Add64(srcOffset, size) > buffers[src].size { return CL_INVALID_VALUE; }
      if Add64(dstOffset, size) > buffers[dst].size { return CL_INVALID_VALUE; }
      if !mallocs { return CL_OUT_OF_HOST_MEMORY; }
      ghost var s := View();
      var ok, mid := Bounce(CopyIn(src, srcOffset, size, bounce), CopyOut(dst, dstOffset, size, bounce), a1, a2);
      if !ok { return CL_OUT_OF_RESOURCES; }
      if srcOffset + size < TWO64 && dstOffset + size < TWO64 {
        CopySteps(process, s, src, dst, srcOffset, dstOffset, size, bounce, mid, dev.mem);
      }
      return CL_SUCCESS;
    }

    /** What is not a call of the library: the application stores into its own memory. */
    method AppStore(at: u64, data: seq<u8>)
      requires Valid() && |data| < TWO32 && process.Owns(at, |data|)
      modifies dev`mem
      ensures Valid() && StepAppStore(process, old(View()), at, data, View())
    {
      var range := process.Range(at, |data|);
      RangeInjective(process, at, |data|);
      StoreWrites(dev.mem.host, range, data);
      dev.mem := Memory(Store(dev.mem.host, range, data), dev.mem.ddr3);
    }

    /** The application allocates and frees: memory may pass between it and the library. */
    method AppRemap(app: set<u64>)
      requires Valid()
      modifies this`process
      ensures Valid() && process == Afterwards(old(process), Remap(app)) && View() == old(View())
    {
      process := process.(app := app);
    }
  }
}
