# A verified model of the FPGA-GPU driver stack and its half-precision conversions

The repository drives an FPGA accelerator: an OpenCL runtime library in user space (`umd/`) calls a Linux
driver (`driver/`), which moves buffers with a scatter-gather DMA engine and hands commands to a small
firmware processor through a ring of 512 packets. It also ships the Khronos header that converts `float`
and `double` to 16-bit halves and back. The model covers both.

## What is modelled

**Half precision** (`Words`, `HalfRounding`, `HalfNarrow`, `HalfWiden`, `HalfTheorems`).
`HalfRounding` says what correct rounding is, after section 4.3 of IEEE 754-2008 and without reference to
the code: among all representable magnitudes (every real scaled by a power of two until it is an integer),
the nearest with ties to even, the largest not above, or the smallest not below. `HalfNarrow` holds
`cl_half_from_float` and `cl_half_from_double` as methods that follow the C branch by branch and are proved
to return that value; one argument over mantissa width and bias serves both. `HalfWiden` holds
`cl_half_to_float` with its normalising loop. `HalfTheorems` draws the consequences: monotonicity, brackets
that close exactly on representable inputs also after decoding, round trips, agreement of the two widths.

**DMA transfer** (`DmaMemory`, `DmaPages`, `DmaChain`, `DmaDevice`).
A class `Device` has the driver's scratch fields and the request in the driver's order: checks, pinning,
page split, mapping, descriptor chain, run, teardown, with every failure the kernel or the hardware may
answer. The hardware is a walk that fetches descriptors by their addresses, executes each, and stops at the
end-of-packet bit. Its effect is proved to be one copy of `size` bytes between the caller's range and device
memory, with every other byte unchanged.

**Buffers** (`Vram`, `ClStore`, `ClMem`).
The bump allocator and the buffer calls as classes over that device. `ClStore` relates three levels: the
calls, the one DDR3 they share behind the DMA engine and the process's page table, and an abstract store of
independent byte arrays. A run interleaves calls of the library, failing ones included, with kernel launches
and with what the application does to its own memory: it stores into it, allocates and frees. Every such run
is a run of the arrays. A launch may leave any bytes in the arrays its kernel writes and nothing else; a
call whose transfer times out is not covered.

**Command ring** (`RingCore`, `RingMachine`, `CommandRing`).
`RingMachine` is the protocol in single memory accesses: any number of threads take the lock, read head and
tail, write a slot piece by piece, publish, ring the firmware and unlock; waiters go through the kernel's
wait loop; the firmware is woken by the command interrupt, takes packets until the ring is empty, and for
each commits the head and raises the interrupt; the handler wakes the queue. The theorems hold in every reachable state. `CommandRing` is the driver's code as a class, with lists
of outside events at every point of a request; it uses the same ring lemmas.

**Kernel launch** (`ClKernel`, `Tiling`, `ClEnqueue`).
The argument table and its marshalling, the group arithmetic, and `clEnqueueNDRangeKernel` over the runtime
and the ring together. What the device does to its memory at each consumption of a packet is a parameter;
the theorems say which memory the launched kernel finds.

## Conventions and assumptions

A C word is the integer it denotes. Wrap-around of `size_t` and the casts to 32 bits are written out. `<<`,
`>>` and masks are recursive functions on numbers. Answers of the kernel, of `malloc` and of the hardware are
parameters, so a statement about a method holds for every answer that keeps the following contracts.

- DMA transfers run one at a time, since they use scratch fields of the device without a lock.
- The pages behind a pinned range are pairwise distinct, and no two virtual pages share a frame.
- `dma_map_sg` may merge neighbouring pieces; the mapped segments denote the same bytes in the same order.
- A clear busy bit means that the hardware has finished the chain.
- The firmware consumes slot `head`, advances `head` modulo 512, and only then raises the interrupt. It
  does not poll the tail: a command interrupt wakes it, and it then works until it finds the ring empty.
- Consuming a load packet leaves device memory alone; consuming any other packet may change any of it. The
  device writes its memory at no other time.
- `queue_mode` is 0, and all buffers belong to one context, because creating a context resets the heap.
- Memory that `malloc` or `posix_memalign` returns to the library is not memory of the application.

## Where the code does not do what one would expect

The first five are lemmas with a concrete input and an exact condition, the sixth is a clause of a contract.

- The sums in `fpgagpu_vram_alloc` wrap for sizes near 2^64: such a call succeeds and reserves nothing
  (`Vram.AllocWraps`). The allocator is sound exactly when the sum does not wrap (`Vram.AllocSoundIff`).
- The bounds check `offset + size > buffer->size` wraps in the same way (`ClMem.BoundsCheckWraps`,
  `ClMem.BoundsCheckIff`).
- A launch whose global size is zero reaches the device with 32 columns of groups, because the driver's
  default replaces the zero (`Tiling.EmptyLaunch`, `Tiling.LaunchTilesIff`).
- A scalar argument of a size other than eight reaches the kernel as it is if and only if it has at most four
  bytes or is zero (`ClKernel.ScalarPassesIff`, `ClKernel.WideScalarIsLost`). Of eight bytes it is taken for a buffer handle
  (`ClKernel.EightByteScalarIsHandle`); the code follows it as a pointer, so that null and every other number
  that is no live handle is outside its defined behaviour (`ClKernel.NullHandleUndefined`).
- A local size that is a non-zero multiple of 2^32 becomes zero, and the launch divides by it
  (`Tiling.BlockVanishes`, `Tiling.DividesIff`).
- When pinning fails with an error code, `num_pinned_pages` keeps that negative code after the request
  (last clause of `DmaDevice.Device.DmaTransfer`).
- The comment above `fpgagpu_irq_handler` says that the head is written to host memory; the driver reads it
  from device memory. The model follows the driver.

## Model

| member | source | states |
|---|---|---|
| `HalfNarrow.FloatFieldsExact` | include/CL/cl_half.h:117-124 | sign, exponent and mantissa are the digits of the 32-bit encoding |
| `HalfNarrow.DoubleFieldsExact` | include/CL/cl_half.h:243-250 | the same for the 64-bit encoding |
| `HalfNarrow.FromFloat` | include/CL/cl_half.h:109-229 | for every float and mode the result is the correctly rounded half, infinities stay, NaNs stay NaNs of the same sign, silenced |
| `HalfNarrow.FromDouble` | include/CL/cl_half.h:235-355 | the same for every double |
| `HalfNarrow.NarrowCodeCorrect` | include/CL/cl_half.h:109-355 | the branch structure shared by both widths rounds correctly: subnormals, ties to even, carry into the exponent, overflow |
| `HalfNarrow.OverflowHandled` | include/CL/cl_half.h:61-83 | the overflow handler's answer is the rounded value whenever the exponent is too large |
| `HalfNarrow.UnderflowHandled` | include/CL/cl_half.h:87-103 | the underflow handler's answer is the rounded value below half the smallest subnormal |
| `HalfNarrow.RoundAndPack` | include/CL/cl_half.h:181-229 | the shared tail adds one unit exactly when the mode's rounding decision says so, and the carry reaches the exponent |
| `HalfRounding.RoundedUnique` | include/CL/cl_half.h:109-355 | the rounded value of a magnitude is unique in each mode, so correctness determines all sixteen bits |
| `HalfRounding.DecisionIsRounding` | include/CL/cl_half.h:181-221 | comparing the dropped bits with half a unit decides between the two neighbours as the standard asks |
| `HalfWiden.ToFloat` | include/CL/cl_half.h:361-428 | the float returned denotes exactly the half's value; infinities and NaNs map to themselves, silenced |
| `HalfWiden.Normalize` | include/CL/cl_half.h:411-423 | the normalising loop ends with the leading one made implicit and counts the shifts |
| `HalfTheorems.NarrowMonotone` | include/CL/cl_half.h:109-355 | in each mode a smaller finite input never narrows to a larger half |
| `HalfTheorems.Bracket` | include/CL/cl_half.h:109-355 | the results of rounding down and up enclose the input, and they meet exactly when it is representable |
| `HalfTheorems.DecodedValue` | include/CL/cl_half.h:361-428 | the decoded float of a finite half is finite and has the half's value on the scale of either source format |
| `HalfTheorems.DecodedBracket` | include/CL/cl_half.h:109-428 | narrowed down and up and decoded again, the two floats enclose every finite float or double, and each equals it exactly when some half has that value |
| `HalfTheorems.RoundTrip` | include/CL/cl_half.h:109-428 | widening a half and narrowing it again in any mode gives the same bits, a NaN being silenced |
| `HalfTheorems.WidthsAgree` | include/CL/cl_half.h:109-355 | a float and the double of the same number narrow to the same sixteen bits in every mode, NaN, infinity and subnormal included |
| `HalfTheorems.EveryFloatWidens` | include/CL/cl_half.h:235-355 | every float has such a double, so the agreement covers all floats |
| `DmaPages.PiecesPartition` | driver/fpgagpu_ioctl.c:81-88 | the pieces are non-empty, stay inside their pages, only the first has an offset, their number is the ceiling computed before, and together they are the range byte by byte |
| `DmaPages.RangeBytesDistinct` | driver/fpgagpu_ioctl.c:60-72 | with distinct pinned pages no byte of the range occurs twice |
| `DmaDevice.Device.FillSgl` | driver/fpgagpu_ioctl.c:81-88 | the loop over `remaining` and `page_offset` fills the table with those pieces |
| `DmaDevice.Device.BuildChain` | driver/fpgagpu_ioctl.c:100-121 | the loop builds the linked chain of the segments and leaves the rest of the ring alone |
| `DmaChain.ChainInNumbers` | driver/fpgagpu_ioctl.c:102-121 | control word, length, host address and link of every descriptor as the hardware reads them |
| `DmaChain.EngineTours` | driver/fpgagpu_ioctl.c:115-120 | following the links from the ring base executes the slots one after the other and stops after the last |
| `DmaChain.WalkCopies` | driver/fpgagpu_ioctl.c:100-134 | from the ring base the hardware visits the descriptors 0 to n-1 once each, stops at the only end mark, and has copied exactly the segments' bytes, in either direction |
| `DmaDevice.Device.RunEngine` | driver/fpgagpu_ioctl.c:123-134 | the run copies the segments' bytes unless the poll limit is reached |
| `DmaDevice.Device.WaitIdle` | driver/fpgagpu_ioctl.c:130-133 | the poll counter ends at zero exactly when the busy bit reads as set ten million times |
| `DmaDevice.Device.ReleasePages` | driver/fpgagpu_ioctl.c:141-147 | every pinned page is released exactly once, and all of them are marked dirty when the device wrote |
| `DmaDevice.OutcomeInNumbers` | driver/fpgagpu_ioctl.c:27-152 | which request ends with which status, in plain numbers |
| `DmaDevice.Device.DmaTransfer` | driver/fpgagpu_ioctl.c:13-154 | status of every outcome, with the exact conditions of EINVAL and of success in numbers; success is exactly a copy of `size` bytes; references and mappings are balanced, the table is gone, pages are dirtied only by transfers from the device |
| `DmaDevice.Device.DmaRun` | driver/fpgagpu_ioctl.c:60-152 | the same over any sequence of requests with any pattern of failures; memory goes through one copy per success and no change per request that never starts the hardware |
| `Vram.Allocator.Alloc` | umd/src/vram_alloc.c:17-40 | address and new heap pointer, also before the first initialisation |
| `Vram.AllocInNumbers` | umd/src/vram_alloc.c:17-40 | short of a wrap an allocation succeeds exactly when the size is not zero and its whole pages end within the gigabyte |
| `Vram.AllocSoundIff` | umd/src/vram_alloc.c:27-37 | an allocation fails without effect or hands out the next whole pages, if and only if the sum does not wrap |
| `Vram.AllocWraps` | umd/src/vram_alloc.c:27-37 | one size for which it does neither |
| `Vram.RangesDisjoint` | umd/src/vram_alloc.c:10-46 | all ranges handed out between two initialisations are aligned, inside the user part of the memory, pairwise disjoint and disjoint from the argument page |
| `ClMem.Runtime.CreateCodeInNumbers` | umd/src/cl_mem.c:9-50 | short of a wrap, which creation ends with which code, in plain sums |
| `ClMem.Runtime.CreateBuffer` | umd/src/cl_mem.c:3-55 | the code returned, and the step on the store that a successful or failing call is, if no sum wraps |
| `ClMem.Runtime.ReleaseMemObject` | umd/src/cl_mem.c:57-66 | the buffer disappears with its last reference; null is refused |
| `ClMem.Runtime.TransferCodeInNumbers` | umd/src/cl_mem.c:82-97 | which write or read ends with which code: a valid one succeeds exactly when its transfer does |
| `ClMem.Runtime.WriteBuffer` | umd/src/cl_mem.c:68-111 | the checks in order; success writes the buffer's range, failure short of a time-out changes nothing |
| `ClMem.Runtime.ReadBuffer` | umd/src/cl_mem.c:113-156 | the checks in order; success fills the caller's range, failure short of a time-out changes nothing |
| `ClMem.Runtime.CopyCodeInNumbers` | umd/src/cl_mem.c:173-206 | which copy ends with which code: a valid one succeeds exactly when memory is found and both transfers succeed |
| `ClMem.Runtime.CopyBuffer` | umd/src/cl_mem.c:158-220 | the checks in order; success is the two transfers through the bounce buffer, failure short of a time-out leaves every buffer alone |
| `ClMem.BoundsCheckIff` | umd/src/cl_mem.c:84 | a request that passes the check lies inside the buffer if and only if the sum does not wrap |
| `ClMem.BoundsCheckWraps` | umd/src/cl_mem.c:84 | one offset and size that pass and do not |
| `ClMem.RangeOfRequest` | driver/fpgagpu_ioctl.c:36-63 | the bytes transferred are those of the caller's virtual range through the page table |
| `ClStore.WriteRefines` | umd/src/cl_mem.c:68-111 | a write replaces these bytes of one array and nothing else |
| `ClStore.ReadRefines` | umd/src/cl_mem.c:113-156 | a read shows the application these bytes of the array and nothing else changes |
| `ClStore.CopyRefines` | umd/src/cl_mem.c:173-206 | a copy makes the destination equal to the source as it was before, overlapping ranges of one buffer included |
| `ClStore.CreateRefines` | umd/src/cl_mem.c:18-52 | creation adds an array with the given contents and changes no other |
| `ClStore.ReleaseRefines` | umd/src/cl_mem.c:57-66 | release removes one array |
| `ClStore.KernargRefines` | umd/src/cl_enqueue.c:43-56 | the argument upload of a launch changes no buffer |
| `ClStore.LaunchRefines` | umd/src/cl_enqueue.c:43-104 | a launch changes only the arrays its kernel writes, and no array comes, goes or changes its length |
| `ClStore.AppStoreRefines` | umd/src/cl_mem.c:87-92 | the application's own stores, which the next write transfers, change its memory and no array |
| `ClStore.FailedRefines` | umd/src/cl_mem.c:24-50 | a failing call changes no array, though it may leak device memory |
| `ClStore.StepRefines` | umd/src/cl_mem.c:3-220 | every call, launch and application step keeps the layout invariant and does to the arrays what it says |
| `ClStore.RunRefines` | umd/src/cl_mem.c:3-220 | every run of these over the shared memory is a run over independent byte arrays, while application and library pass memory to each other |
| `ClStore.ReadsLastWrite` | umd/src/cl_mem.c:68-156 | a read delivers what a write, a copy or a creation last put into each byte, whatever else was done in between |
| `RingCore.InFlight` | driver/fpgagpu_ioctl.c:170-176 | the wrapped counters determine the number of packets in flight, at most 511 |
| `RingCore.FullTest` | driver/fpgagpu_ioctl.c:170-176 | the full test on a stale head fires exactly at 511 and otherwise leaves room now |
| `RingMachine.StepInv` | driver/fpgagpu_ioctl.c:163-223 | every single step of every thread, of the firmware and of the interrupt keeps the protocol invariant |
| `RingMachine.ReachableInv` | driver/fpgagpu_ioctl.c:163-294 | the invariant holds in every state any interleaving can reach |
| `RingMachine.RingSafe` | driver/fpgagpu_ioctl.c:166-201 | consumed is a prefix of submitted in lock order, at most 511 are in flight, slots head to tail hold exactly the unconsumed packets |
| `RingMachine.MutualExclusion` | driver/fpgagpu_ioctl.c:166-201 | at most one thread is between lock and unlock |
| `RingMachine.NoOverwrite` | driver/fpgagpu_ioctl.c:193-198 | no step changes the slot of an unconsumed packet, although the head read was stale and the slot write is not atomic |
| `RingMachine.BusyExactly` | driver/fpgagpu_ioctl.c:170-176 | the ring is reported full if and only if 511 packets were in flight when the head was read |
| `RingMachine.CallsEndRight` | driver/fpgagpu_ioctl.c:163-294 | in every run a load leaves its call only refused, giving up, or with its own packet consumed; a submission never waits and leaves refused or with its packet published |
| `RingMachine.DrainedDoorbell` | driver/fpgagpu_ioctl.c:209-217 | on a drained ring a doorbell succeeds at its first test |
| `RingMachine.WaitsAreSound` | driver/fpgagpu_ioctl.c:209-223 | a wait that ends in success proves that the packets it waited for are consumed, however often the counters wrapped |
| `RingMachine.WhatWaitsCover` | driver/fpgagpu_ioctl.c:209-294 | those are all packets published at the doorbell's snapshot, or for a load everything up to its own packet |
| `RingMachine.ThreadsGoOn` | driver/fpgagpu_ioctl.c:163-294 | no thread is ever stuck, and the lock is only ever held by a thread that can go on |
| `RingMachine.CriticalSectionEnds` | driver/fpgagpu_ioctl.c:166-201 | every critical section ends after at most seven moves of its thread, whatever the others do |
| `RingMachine.WaitLoopExact` | driver/fpgagpu_ioctl.c:214-217 | a test succeeds exactly when the head is at the target, a thread sleeps exactly when it has not been woken, and gives up only after a failed test |
| `RingMachine.FirmwareGoesOn` | include/kmd/fpgagpu_core.h:66-67 | the firmware always has its next step, and executes the oldest unconsumed packet |
| `RingMachine.FirmwareRests` | driver/fpgagpu_ioctl.c:196-197 | the firmware stops looking when the ring is empty |
| `RingMachine.NoLostWakeUp` | driver/fpgagpu_sched.c:28-34 | a thread asleep with its condition true has an interrupt pending, in handling or still to be raised |
| `RingMachine.WakeUpDelivers` | driver/fpgagpu_sched.c:28-34 | delivering that interrupt makes the wait succeed |
| `RingMachine.Drain` | driver/fpgagpu_ioctl.c:211-217 | without further submissions each consumption brings the condition one closer; it holds after exactly (tail - head) mod 512 of them and stays true |
| `RingMachine.NoLostCommand` | driver/fpgagpu_ioctl.c:196-201 | whenever a packet is unconsumed and the firmware idle, the command interrupt is pending, or the thread that published still holds the lock and is about to raise it |
| `RingMachine.CommandDelivers` | driver/fpgagpu_ioctl.c:196-201 | from there the firmware gets to execute the oldest unconsumed packet |
| `RingMachine.HistoryGrows` | driver/fpgagpu_ioctl.c:193-198 | packets submitted or consumed stay so, in their order |
| `CommandRing.PacketsInNumbers` | driver/fpgagpu_ioctl.c:182-191 | the two kinds of packet word by word, defaults included |
| `CommandRing.Ring.SubmitCmd` | driver/fpgagpu_ioctl.c:156-207 | publishes the packet with its defaults at one place of the history, or answers that the ring was full |
| `CommandRing.Ring.Post` | driver/fpgagpu_ioctl.c:263-282 | the critical section, with the firmware consuming at any point of it |
| `CommandRing.Ring.WaitForHead` | driver/fpgagpu_ioctl.c:284-294 | success proves consumption; giving up means that the last test saw another head |
| `CommandRing.Ring.Doorbell` | driver/fpgagpu_ioctl.c:209-228 | on success everything submitted before the call is consumed; it gives up only if the count consumed was another one |
| `CommandRing.Ring.LoadKernel` | driver/fpgagpu_ioctl.c:239-296 | every error condition; on success the load packet was consumed while the staging buffer held the program |
| `ClKernel.Kernel.SetArg` | umd/src/cl_kernel.c:46-84 | the code, and the table with this argument replaced and no other |
| `ClKernel.Kernel.SetArgIn` | umd/src/cl_kernel.c:63-68 | over a runtime's live buffers, a buffer argument becomes that buffer's device address |
| `ClKernel.BufferPasses` | umd/src/cl_kernel.c:63-68 | the cast to 32 bits loses nothing of a live buffer's address |
| `ClKernel.ScalarPassesIff` | umd/src/cl_kernel.c:69-78 | a scalar of a size other than eight is passed as it is if and only if it has at most four bytes or is zero |
| `ClKernel.WideScalarIsLost` | umd/src/cl_kernel.c:69-78 | the number one in sixteen bytes is passed as zero |
| `ClKernel.EightByteScalarIsHandle` | umd/src/cl_kernel.c:63-68 | a number in eight bytes that equals a handle is passed as that buffer's address |
| `ClKernel.NullHandleUndefined` | umd/src/cl_kernel.c:63-68 | a null buffer handle is outside the defined calls |
| `ClKernel.Kernel.SetArgs` | umd/src/cl_kernel.c:46-84 | any sequence of calls leaves the last value given to each argument |
| `ClKernel.Kernel.Marshal` | umd/src/cl_enqueue.c:29-41 | succeeds if and only if every index below the highest one set is set, and then fills the page with each value twice and zeros |
| `ClKernel.GivenIsLast` | umd/src/cl_kernel.c:51-81 | the table holds the value of the last accepted call |
| `ClKernel.CompleteIffNoGaps` | umd/src/cl_enqueue.c:31-36 | after any sequence of calls marshalling succeeds if and only if no index below a given one was left out |
| `ClKernel.PageHoldsLastValues` | umd/src/cl_enqueue.c:37-38 | words 2i and 2i + 1 hold the last value given for argument i, and zero when none was |
| `Tiling.GridCoversIff` | umd/src/cl_enqueue.c:72-76 | the grid covers the items without a spare group if and only if the sum does not wrap and the cast does not truncate |
| `Tiling.EveryItemOnce` | umd/src/cl_enqueue.c:72-76 | every global id has exactly one group and one place in it |
| `Tiling.NoGroupSpare` | umd/src/cl_enqueue.c:72-76 | every group has an item |
| `Tiling.LaunchPacketInNumbers` | umd/src/cl_enqueue.c:72-93 | the launch packet in numbers: the block is the caller's local size or 2 by 1, the grid the rounded quotient, the count the product |
| `Tiling.LaunchTilesIff` | umd/src/cl_enqueue.c:72-93 | for one or two dimensions: the grid tiles the index space and reaches the packet without a default firing, if and only if all sizes are non-zero and fit |
| `Tiling.LaunchTilesSpace` | umd/src/cl_enqueue.c:72-93 | over the packet's four dimensions every work item of the whole index space has exactly one group and one place in it, and every group has an item |
| `Tiling.DividesIff` | umd/src/cl_enqueue.c:72-76 | the grid computation divides by zero if and only if a local size in use is a non-zero multiple of 2^32 |
| `Tiling.BlockVanishes` | umd/src/cl_enqueue.c:72 | one local size for which it does |
| `Tiling.EmptyLaunch` | driver/fpgagpu_ioctl.c:185 | a zero size is replaced by the driver's default |
| `ClEnqueue.EarlyCodesExact` | umd/src/cl_enqueue.c:17-28 | the exact condition of every code returned before the device is touched |
| `ClEnqueue.KernargInNumbers` | umd/src/cl_enqueue.c:44-49 | the upload is 4096 bytes to device address zero |
| `ClEnqueue.WordReadsBack` | umd/src/cl_enqueue.c:37-38 | the device reads back the words that were stored |
| `ClEnqueue.UploadKernargs` | umd/src/cl_enqueue.c:43-56 | after a successful upload the device's argument page holds the words, and no buffer has changed |
| `ClEnqueue.LoadLaunchWait` | umd/src/cl_enqueue.c:58-104 | success means: load packet consumed with the program staged, launch packet consumed after it, and no other load between when loads are serial; it succeeds whenever the program can be loaded into a drained ring and the firmware answers promptly |
| `ClEnqueue.LoadsKeepMemory` | umd/src/cl_enqueue.c:58-68 | device memory is the same before and after packets that are all loads |
| `ClEnqueue.LaunchRan` | umd/src/cl_enqueue.c:58-104 | the kernel finds the memory of the upload if only loads came in between, and with nobody else submitting the call amounts to running that one kernel on it |
| `ClEnqueue.EnqueueNDRangeKernel` | umd/src/cl_enqueue.c:3-118 | the code in every case; the step on the store; and on success program order, dimensions, and the memory with the arguments that the kernel finds when its packet is consumed |

## Left out

- DmaDevice.Device.RunEngine: says nothing about memory after a time-out, because the hardware may have moved any part of the chain.
- ClMem.Runtime.WriteBuffer: for the same reason the store says nothing after a time-out; likewise the other buffer calls.
- DmaDevice.Device.DmaTransfer: one request at a time; two threads would share the pinned pages and the descriptor ring.
- ClEnqueue.EnqueueNDRangeKernel: a kernel still at work after a wait that failed; in the model the device writes only while a ring request is under way.
- RingMachine.Drain: liveness only while nobody submits; with other submitters the head can pass a snapshot between two tests.
- CommandRing.Ring.LoadKernel: one load at a time; a second one would overwrite the staging buffer.
- CommandRing.Ring.WaitForHead: the five seconds are a bound on the number of wake-ups, because the model has no clock.
- Tiling.LaunchTilesIff: three dimensions, where the library ignores the third size.
- ClEnqueue.GoodSizes: excludes exactly the local sizes of `Tiling.DividesIff`, for which the C divides by zero.
- The byte layout of the first device register window: the ring is an array of slots. In the header's layout the last slot begins at the address of the command interrupt register, so a claim that both are disjoint would be false.
- Private queue mode, device probing, memory mapping and the version query.
- ClKernel.Kernel.constructor: the argument checks of `clCreateKernel` and the kernel's name.
- Program building, platform and device queries, events, and reference counts of contexts, queues, programs and kernels.
- The `irq_fired` flag, which no wait condition reads.
- The firmware, the IOMMU and the DMA engine themselves: the assumptions above stand for them.
- Diagnostic output, and the copies of request structures from user memory, which are parameters here.
