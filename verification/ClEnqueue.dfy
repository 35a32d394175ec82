/** clEnqueueNDRangeKernel: marshal the arguments, upload them, load the program, launch, wait. */
module ClEnqueue {
  import opened Words
  import opened DmaMemory
  import opened DmaPages
  import opened DmaDevice
  import opened Vram
  import opened ClStore
  import opened ClMem
  import opened ClKernel
  import opened RingCore
  import opened CommandRing
  import opened Tiling

  /** The parts of struct _cl_program a launch reads. */
  datatype Program = Program(isBuilt: bool, words: seq<u32>, numInstructions: u32)

  /** Byte `k` of a little-endian word. */
  function ByteOf(w: u32, k: nat): u8
    requires k < 4
  {
    if k == 0 then w % 256
    else if k == 1 then w / 256 % 256
    else if k == 2 then w / 256 / 256 % 256
    else w / 256 / 256 / 256
  }

  /** A page of words as the bytes memory holds. */
  function PageBytes(words: seq<u32>): (r: seq<u8>)
    requires |words| == KERNARG_WORDS
    ensures |r| == KERNARG_SIZE
  {
    seq(KERNARG_SIZE, j requires 0 <= j < KERNARG_SIZE => ByteOf(words[j / 4], j % 4))
  }

  lemma KernargInNumbers(ptr: u64)
    ensures KernargRequest(ptr) == Request(0, 4096, 0, ptr)
  {}

  lemma FourBytes(a: u8, b: u8, c: u8, d: u8)
    ensures LittleEndian([a, b, c, d]) == a + 256 * (b + 256 * (c + 256 * d))
  {
    assert LittleEndian([d]) == d + 256 * LittleEndian([]);
    assert [c, d][1..] == [d] && [b, c, d][1..] == [c, d] && [a, b, c, d][1..] == [b, c, d];
    assert LittleEndian([b, c, d]) == b + 256 * LittleEndian([c, d]);
  }

  function BytesOf(w: u32): seq<u8> {
    [ByteOf(w, 0), ByteOf(w, 1), ByteOf(w, 2), ByteOf(w, 3)]
  }

  lemma WordOfBytes(w: u32)
    ensures LittleEndian(BytesOf(w)) == w
  {
    FourBytes(ByteOf(w, 0), ByteOf(w, 1), ByteOf(w, 2), ByteOf(w, 3));
  }

  /** Reading the bytes back gives the words. */
  lemma WordReadsBack(words: seq<u32>, i: nat)
    requires |words| == KERNARG_WORDS && i < KERNARG_WORDS
    ensures LittleEndian(PageBytes(words)[4 * i..4 * i + 4]) == words[i]
  {
    var w := words[i];
    assert PageBytes(words)[4 * i..4 * i + 4] == BytesOf(w);
    WordOfBytes(w);
  }

  /** The argument page of the device memory holds these words. */
  ghost predicate DeviceHolds(mem: DevMem, words: seq<u32>)
    requires |words| == KERNARG_WORDS
  {
    Load(mem, Range64(0, 4096)) == PageBytes(words)
  }

  /** The upload request of a launch. */
  function KernargRequest(ptr: u64): Request {
    Request(DMA_TO_DEVICE, KERNARG_SIZE, KERNARG_BASE, ptr)
  }

  /** The page, written by the library through its own mapping, and transferred. */
  lemma UploadSteps(p: Process, s: State, ptr: u64, words: seq<u32>, mid: Memory, mem': Memory)
    requires |words| == KERNARG_WORDS && p.OwnsNone(ptr, KERNARG_SIZE) && mid.ddr3 == s.mem.ddr3
    requires Written(s.mem.host, mid.host, p.Range(ptr, KERNARG_SIZE), PageBytes(words))
    requires Moved(p, KernargRequest(ptr), mid, mem')
    ensures StepKernarg(p, s, ptr, s.(mem := mem')) && DeviceHolds(mem'.ddr3, words)
  {
    assert Load(mid.host, p.Range(ptr, KERNARG_SIZE)) == PageBytes(words);
  }

  /** Filling in the page's bytes and uploading them. */
  method UploadKernargs(rt: Runtime, words: seq<u32>, ptr: u64, a: Answers) returns (ok: bool)
    requires rt.Valid() && |words| == KERNARG_WORDS
    requires rt.process.OwnsNone(ptr, KERNARG_SIZE) && Truthful(rt.process, KernargRequest(ptr), a)
    modifies rt.dev, rt.dev.descRing, rt.dev.pinnedPages
    ensures rt.Valid() && ok == (Outcome(KernargRequest(ptr), a) == Success)
    ensures ok ==> StepKernarg(rt.process, old(rt.View()), ptr, rt.View()) && DeviceHolds(rt.dev.mem.ddr3, words)
    ensures !ok && a.busyPolls < POLL_LIMIT ==> StepFailed(rt.process, old(rt.View()), ptr, KERNARG_SIZE, rt.View())
  {
    ghost var s := rt.View();
    var range := rt.process.Range(ptr, KERNARG_SIZE);
    RangeInjective(rt.process, ptr, KERNARG_SIZE);
    StoreWrites(rt.dev.mem.host, range, PageBytes(words));
    rt.dev.mem := Memory(Store(rt.dev.mem.host, range, PageBytes(words)), rt.dev.mem.ddr3);
    ghost var mid := rt.dev.mem;
    ok := rt.Transfer(KernargRequest(ptr), a);
    if ok { UploadSteps(rt.process, s, ptr, words, mid, rt.dev.mem); }
  }

  /** What a successful launch has made the firmware see between the histories `h` and `h'`: the load
      packet, while the program was in the staging buffer, and after it the launch packet. */
  ghost predicate Launched(h: History, h': History, program: Program, launch: Packet, l: nat, k: nat) {
    var n := program.numInstructions;
    && |h.submitted| <= l < k < |h'.consumed| == |h'.staged|
    && h'.consumed[l] == LoadPacket(n, 1) && h'.consumed[k] == launch
    && 0 < n <= MAX_INSTRUCTIONS && n <= |program.words| && n <= |h'.staged[l]|
    && h'.staged[l][..n] == program.words[..n]
  }

  /** No packet between the two loads another program. */
  ghost predicate NoLoadBetween(h: History, l: nat, k: nat) {
    forall i | l < i < k && i < |h.submitted| :: h.submitted[i].opcode != OPCODE_LOAD_KERNEL
  }

  /** What the device does to its memory while the firmware consumes the packet in place `i` of the history.
      A load only fills the instruction memory; any other packet may run a kernel, which may write any byte. */
  type Kernels = nat -> DevMem -> DevMem

  /** The device memory after the packets in places `from` to `to - 1`, if it was `mem` before them. */
  function Evolve(consumed: seq<Packet>, kernels: Kernels, from: nat, to: nat, mem: DevMem): DevMem
    requires from <= to <= |consumed|
  {
    if to == from then mem
    else
      var before := Evolve(consumed, kernels, from, to - 1, mem);
      if consumed[to - 1].opcode == OPCODE_LOAD_KERNEL then before else kernels(to - 1)(before)
  }

  predicate OnlyLoads(consumed: seq<Packet>, from: nat, to: nat)
    requires to <= |consumed|
  {
    forall i | from <= i < to :: consumed[i].opcode == OPCODE_LOAD_KERNEL
  }

  lemma {:induction false} LoadsKeepMemory(consumed: seq<Packet>, kernels: Kernels, from: nat, to: nat, mem: DevMem)
    requires from <= to <= |consumed| && OnlyLoads(consumed, from, to)
    ensures Evolve(consumed, kernels, from, to, mem) == mem
  {
    if from < to { LoadsKeepMemory(consumed, kernels, from, to - 1, mem); }
  }

  /** The program can be loaded, and the only outside events of the launch are that the firmware consumes
      each of its two packets before the first look at the head. */
  ghost predicate Prompt(program: Program, loads: Schedule, launches: Schedule, waits: Schedule) {
    var n := program.numInstructions;
    && 0 < n <= 1024 && n <= |program.words|
    && Quiet(loads, 0, n + 4) && loads(n + 4) == [Consume]
    && Quiet(launches, 0, 4) && waits(0) == [Consume]
  }

  /** The launch and the wait. */
  method LaunchWait(ring: Ring, c: Command, launches: Schedule, waits: Schedule, wakeUps: nat, signal: bool)
    returns (ok: bool, ghost k: nat)
    requires ring.Valid()
    modifies ring, ring.slots
    ensures ring.Valid() && ring.history.Extends(old(ring.history))
    ensures ok ==> |old(ring.history.submitted)| <= k < |ring.history.consumed| && ring.history.consumed[k] == PacketFor(c)
    ensures ok && Serial(launches) ==>
              forall i | |old(ring.history.submitted)| <= i < k :: ring.history.submitted[i].opcode != OPCODE_LOAD_KERNEL
    ensures Quiet(launches, 0, 4) && waits(0) == [Consume] && old(ring.history.Drained()) ==> ok && ring.history.Drained()
    ensures ok && NoSubmit(launches(0)) ==> k == |old(ring.history.submitted)|
    ensures ok && NoSubmit(launches(0)) && Alone(waits) ==> |ring.history.consumed| == k + 1
  {
    var code;
    ghost var seen;
    code, k, seen := ring.SubmitCmd(c, launches);
    if code != Done { return false, 0; }
    code := ring.Doorbell(wakeUps, signal, waits);
    ok := code == Done;
  }

  /** The load, the launch and the wait, in this order. */
  method LoadLaunchWait(ring: Ring, program: Program, c: Command, loads: Schedule, launches: Schedule, waits: Schedule,
                        wakeUps: nat, signal: bool)
    returns (ok: bool, ghost l: nat, ghost k: nat)
    requires ring.Valid()
    modifies ring, ring.slots, ring.staging
    ensures ring.Valid() && ring.history.Extends(old(ring.history))
    ensures ok ==> Launched(old(ring.history), ring.history, program, PacketFor(c), l, k)
    ensures ok && Serial(loads) && Serial(launches) ==> NoLoadBetween(ring.history, l, k)
    ensures Prompt(program, loads, launches, waits) && old(ring.history.Drained()) ==> ok && ring.history.Drained()
    ensures ok && Alone(loads) && Alone(launches) ==> l == |old(ring.history.submitted)| && k == l + 1
    ensures ok && Alone(loads) && Alone(launches) && Alone(waits) ==> |ring.history.consumed| == k + 1
  {
    var code;
    ghost var seen;
    code, l, seen := ring.LoadKernel(program.words, program.numInstructions, 1, wakeUps, signal, loads);
    if code != Done { return false, 0, 0; }
    ok, k := LaunchWait(ring, c, launches, waits, wakeUps, signal);
  }

  /** Marshalling and upload. */
  method PrepareArguments(rt: Runtime, kernel: Kernel, ptr: u64, a: Answers) returns (st: ClStatus)
    requires rt.Valid() && kernel.Valid()
    requires rt.process.OwnsNone(ptr, KERNARG_SIZE) && Truthful(rt.process, KernargRequest(ptr), a)
    modifies rt.dev, rt.dev.descRing, rt.dev.pinnedPages
    ensures rt.Valid()
    ensures st == if !Complete(kernel.Table()) then CL_INVALID_KERNEL_ARGS
                  else if Outcome(KernargRequest(ptr), a) != Success then CL_OUT_OF_RESOURCES
                  else CL_SUCCESS
    ensures st == CL_INVALID_KERNEL_ARGS ==> rt.View() == old(rt.View())
    ensures st == CL_SUCCESS ==>
              StepKernarg(rt.process, old(rt.View()), ptr, rt.View()) && DeviceHolds(rt.dev.mem.ddr3, Page(kernel.Table()))
    ensures st == CL_OUT_OF_RESOURCES && a.busyPolls < POLL_LIMIT ==>
              StepFailed(rt.process, old(rt.View()), ptr, KERNARG_SIZE, rt.View())
  {
    var page := new u32[KERNARG_WORDS];
    var ok := kernel.Marshal(page);
    if !ok { return CL_INVALID_KERNEL_ARGS; }
    ok := UploadKernargs(rt, page[..], ptr, a);
    if !ok { return CL_OUT_OF_RESOURCES; }
    return CL_SUCCESS;
  }

  /** How clEnqueueNDRangeKernel ends before it reaches the device. */
  function EarlyCode(queue: bool, kernel: bool, linked: bool, program: Program, dim: u32, global: Sizes, pages: bool): ClStatus
  {
    if !queue then CL_INVALID_COMMAND_QUEUE
    else if !kernel then CL_INVALID_KERNEL
    else if !linked || !program.isBuilt then CL_INVALID_PROGRAM_EXECUTABLE
    else if dim == 0 || dim > 3 || global.NoSizes? then CL_INVALID_WORK_DIMENSION
    else if !pages then CL_OUT_OF_HOST_MEMORY
    else CL_SUCCESS
  }

  /** Those codes, each with its exact condition. */
  lemma EarlyCodesExact(queue: bool, kernel: bool, linked: bool, program: Program, dim: u32, global: Sizes, pages: bool)
    ensures var st := EarlyCode(queue, kernel, linked, program, dim, global, pages);
            var built := queue && kernel && linked && program.isBuilt;
            && (st == CL_INVALID_COMMAND_QUEUE <==> !queue)
            && (st == CL_INVALID_KERNEL <==> queue && !kernel)
            && (st == CL_INVALID_PROGRAM_EXECUTABLE <==> queue && kernel && !built)
            && (st == CL_INVALID_WORK_DIMENSION <==> built && (dim == 0 || dim > 3 || global.NoSizes?))
            && (st == CL_OUT_OF_HOST_MEMORY <==> built && 1 <= dim <= 3 && global.Sizes? && !pages)
            && (st == CL_SUCCESS <==> built && 1 <= dim <= 3 && global.Sizes? && pages)
  {}

  /** What OpenCL asks of the size arrays, and what the division by the block size needs: no local size is
      a non-zero multiple of 2^32. */
  predicate GoodSizes(dim: u32, global: Sizes, local: Sizes) {
    1 <= dim <= 3 && global.Sizes? ==>
      && |global.v| >= dim && (local.Sizes? ==> |local.v| >= dim)
      && Divides(dim, local)
  }

  /** An upload, and then whatever the device makes of its memory, is a launch. */
  lemma LaunchSteps(p: Process, s: State, ptr: u64, uploaded: Memory, ddr3: DevMem)
    requires Inv(s) && StepKernarg(p, s, ptr, s.(mem := uploaded))
    ensures var mem' := Memory(uploaded.host, ddr3);
            StepLaunch(p, s, ptr, Rewritten(s, mem'), s.(mem := mem'))
  {}

  /** The argument page has been uploaded, and nothing else has happened to the store. */
  ghost predicate Uploaded(rt: Runtime, s: State, ptr: u64, kernel: Kernel?, uploaded: Memory)
    reads rt, if kernel == null then {} else {kernel, kernel.args}
  {
    kernel != null && DeviceHolds(uploaded.ddr3, Page(kernel.Table())) && StepKernarg(rt.process, s, ptr, s.(mem := uploaded))
  }

  /** The call as a whole is a launch step: memory has gone from `uploaded` through the consumptions since `h`. */
  ghost predicate EndsAs(rt: Runtime, s: State, ring: Ring, h: History, ptr: u64, uploaded: Memory, kernels: Kernels)
    reads rt, rt.dev, rt.vram, ring
  {
    && Inv(s) && StepLaunch(rt.process, s, ptr, Rewritten(s, rt.dev.mem), rt.View())
    && |h.consumed| <= |ring.history.consumed|
    && var consumed := ring.history.consumed;
       rt.dev.mem == Memory(uploaded.host, Evolve(consumed, kernels, |h.consumed|, |consumed|, uploaded.ddr3))
  }

  /** What the launch packet's kernel works on when `mem` was uploaded after `from` consumptions: the memory
      found then, which is still `mem` when only loads came in between; and when nobody else submits
      anything to a ring that was drained, the whole call amounts to running that kernel once on `mem`. */
  ghost predicate RanOn(mem: DevMem, mem': DevMem, consumed: seq<Packet>, kernels: Kernels, from: nat, k: nat, alone: bool)
    requires from <= k < |consumed|
  {
    && (OnlyLoads(consumed, from, k) ==> Evolve(consumed, kernels, from, k, mem) == mem)
    && (alone ==> OnlyLoads(consumed, from, k) && mem' == kernels(k)(mem))
  }

  lemma LaunchRan(mem: DevMem, h: History, h': History, program: Program, c: Command, kernels: Kernels,
                  l: nat, k: nat, alone: bool)
    requires c.opcode != OPCODE_LOAD_KERNEL && h.consumed <= h'.consumed && |h.consumed| <= |h.submitted|
    requires Launched(h, h', program, PacketFor(c), l, k)
    requires alone ==> h.Drained() && l == |h.submitted| && k == l + 1 && |h'.consumed| == k + 1
    ensures RanOn(mem, Evolve(h'.consumed, kernels, |h.consumed|, |h'.consumed|, mem),
                  h'.consumed, kernels, |h.consumed|, k, alone)
  {
    if OnlyLoads(h'.consumed, |h.consumed|, k) { LoadsKeepMemory(h'.consumed, kernels, |h.consumed|, k, mem); }
  }

  /** The load, the launch and the wait, and what they make of the device memory. */
  method RunLaunch(rt: Runtime, ring: Ring, ghost s: State, ghost ptr: u64, program: Program, c: Command, kernels: Kernels,
                   loads: Schedule, launches: Schedule, waits: Schedule, wakeUps: nat, signal: bool)
    returns (ok: bool, ghost l: nat, ghost k: nat)
    requires rt.Valid() && ring.Valid() && c.opcode != OPCODE_LOAD_KERNEL
    requires Inv(s) && StepKernarg(rt.process, s, ptr, rt.View())
    modifies rt.dev`mem, ring, ring.slots, ring.staging
    ensures rt.Valid() && ring.Valid() && ring.history.Extends(old(ring.history))
    ensures EndsAs(rt, s, ring, old(ring.history), ptr, old(rt.dev.mem), kernels)
    ensures ok ==>
              && Launched(old(ring.history), ring.history, program, PacketFor(c), l, k)
              && RanOn(old(rt.dev.mem.ddr3), rt.dev.mem.ddr3, ring.history.consumed, kernels, |old(ring.history).consumed|, k,
                       Alone(loads) && Alone(launches) && Alone(waits) && old(ring.history).Drained())
    ensures ok && Serial(loads) && Serial(launches) ==> NoLoadBetween(ring.history, l, k)
    ensures Prompt(program, loads, launches, waits) && old(ring.history.Drained()) ==> ok
  {
    var before, mem := ring.history, rt.dev.mem;
    ok, l, k := LoadLaunchWait(ring, program, c, loads, launches, waits, wakeUps, signal);
    var consumed := ring.history.consumed;
    rt.dev.mem := Memory(mem.host, Evolve(consumed, kernels, |before.consumed|, |consumed|, mem.ddr3));
    LaunchSteps(rt.process, s, ptr, mem, rt.dev.mem.ddr3);
    if ok {
      LaunchRan(mem.ddr3, before, ring.history, program, c, kernels, l, k,
                Alone(loads) && Alone(launches) && Alone(waits) && before.Drained());
    }
  }

  /** A launch whose arguments have been checked: arguments, program, launch, wait. */
  method Launch(rt: Runtime, ring: Ring, kernel: Kernel, program: Program, c: Command, ptr: u64, a: Answers, kernels: Kernels,
                loads: Schedule, launches: Schedule, waits: Schedule, wakeUps: nat, signal: bool)
    returns (st: ClStatus, ghost l: nat, ghost k: nat, ghost uploaded: Memory)
    requires rt.Valid() && ring.Valid() && kernel.Valid() && c.opcode != OPCODE_LOAD_KERNEL
    requires rt.process.OwnsNone(ptr, KERNARG_SIZE) && Truthful(rt.process, KernargRequest(ptr), a)
    modifies rt.dev, rt.dev.descRing, rt.dev.pinnedPages, ring, ring.slots, ring.staging
    ensures rt.Valid() && ring.Valid() && ring.history.Extends(old(ring.history))
    ensures if !Complete(kernel.Table()) then st == CL_INVALID_KERNEL_ARGS
            else if Outcome(KernargRequest(ptr), a) != Success then st == CL_OUT_OF_RESOURCES
            else st in {CL_SUCCESS, CL_OUT_OF_RESOURCES}
    ensures st == CL_INVALID_KERNEL_ARGS ==> rt.View() == old(rt.View()) && ring.history == old(ring.history)
    ensures st in {CL_SUCCESS, CL_OUT_OF_RESOURCES} && Outcome(KernargRequest(ptr), a) == Success ==>
              && Uploaded(rt, old(rt.View()), ptr, kernel, uploaded)
              && EndsAs(rt, old(rt.View()), ring, old(ring.history), ptr, uploaded, kernels)
    ensures st == CL_OUT_OF_RESOURCES && a.busyPolls < POLL_LIMIT && Outcome(KernargRequest(ptr), a) != Success ==>
              StepFailed(rt.process, old(rt.View()), ptr, KERNARG_SIZE, rt.View())
    ensures st == CL_SUCCESS ==>
              && Launched(old(ring.history), ring.history, program, PacketFor(c), l, k)
              && (Serial(loads) && Serial(launches) ==> NoLoadBetween(ring.history, l, k))
              && RanOn(uploaded.ddr3, rt.dev.mem.ddr3, ring.history.consumed, kernels, |old(ring.history).consumed|, k,
                       Alone(loads) && Alone(launches) && Alone(waits) && old(ring.history).Drained())
    ensures st == CL_OUT_OF_RESOURCES && Prompt(program, loads, launches, waits) && old(ring.history.Drained()) ==>
              Outcome(KernargRequest(ptr), a) != Success
  {
    l, k := 0, 0;
    ghost var s := rt.View();
    st := PrepareArguments(rt, kernel, ptr, a);
    uploaded := rt.dev.mem;
    if st != CL_SUCCESS { return; }
    var ok;
    ok, l, k := RunLaunch(rt, ring, s, ptr, program, c, kernels, loads, launches, waits, wakeUps, signal);
    if !ok { st := CL_OUT_OF_RESOURCES; }
  }

  /** clEnqueueNDRangeKernel. `linked` says that the kernel has a program, `pages` that posix_memalign
      succeeds, and `ptr` what it then returns; `kernels` is what the device does at each consumption.
      `uploaded` is memory after the argument upload. */
  method EnqueueNDRangeKernel(rt: Runtime, ring: Ring, queue: bool, kernel: Kernel?, linked: bool, program: Program,
                              dim: u32, global: Sizes, local: Sizes, pages: bool, ptr: u64, a: Answers, kernels: Kernels,
                              loads: Schedule, launches: Schedule, waits: Schedule, wakeUps: nat, signal: bool)
    returns (st: ClStatus, ghost l: nat, ghost k: nat, ghost uploaded: Memory)
    requires rt.Valid() && ring.Valid() && (kernel != null ==> kernel.Valid()) && GoodSizes(dim, global, local)
    requires pages ==> rt.process.OwnsNone(ptr, KERNARG_SIZE) && Truthful(rt.process, KernargRequest(ptr), a)
    modifies rt.dev, rt.dev.descRing, rt.dev.pinnedPages, ring, ring.slots, ring.staging
    ensures rt.Valid() && ring.Valid() && ring.history.Extends(old(ring.history))
    ensures var early := EarlyCode(queue, kernel != null, linked, program, dim, global, pages);
            if early != CL_SUCCESS then st == early
            else if !Complete(kernel.Table()) then st == CL_INVALID_KERNEL_ARGS
            else if Outcome(KernargRequest(ptr), a) != Success then st == CL_OUT_OF_RESOURCES
            else st in {CL_SUCCESS, CL_OUT_OF_RESOURCES}
    ensures st !in {CL_SUCCESS, CL_OUT_OF_RESOURCES} ==> rt.View() == old(rt.View()) && ring.history == old(ring.history)
    ensures st in {CL_SUCCESS, CL_OUT_OF_RESOURCES} && Outcome(KernargRequest(ptr), a) == Success ==>
              && Uploaded(rt, old(rt.View()), ptr, kernel, uploaded)
              && EndsAs(rt, old(rt.View()), ring, old(ring.history), ptr, uploaded, kernels)
    ensures st == CL_OUT_OF_RESOURCES && a.busyPolls < POLL_LIMIT && Outcome(KernargRequest(ptr), a) != Success ==>
              StepFailed(rt.process, old(rt.View()), ptr, KERNARG_SIZE, rt.View())
    ensures st == CL_SUCCESS ==>
              && Launched(old(ring.history), ring.history, program, PacketFor(LaunchCommand(ShapeOf(dim, global.v, local))), l, k)
              && (Serial(loads) && Serial(launches) ==> NoLoadBetween(ring.history, l, k))
              && RanOn(uploaded.ddr3, rt.dev.mem.ddr3, ring.history.consumed, kernels, |old(ring.history).consumed|, k,
                       Alone(loads) && Alone(launches) && Alone(waits) && old(ring.history).Drained())
    ensures st == CL_SUCCESS ==>
              var p := ring.history.consumed[k];
              && p.magic == 0x4F43_4C31 && p.opcode == 1 && p.src == 0 && p.dst == 0 && p.taskId == 0
              && p.blockX == (if local.NoSizes? || local.v[0] == 0 then 2 else local.v[0] % 0x1_0000_0000)
              && p.blockY == (if dim == 1 || local.NoSizes? || local.v[1] == 0 then 1 else local.v[1] % 0x1_0000_0000)
              && p.numElements == (global.v[0] as int) * (if dim == 1 then 1 else global.v[1] as int) % 0x1_0000_0000
    ensures st == CL_OUT_OF_RESOURCES && Prompt(program, loads, launches, waits) && old(ring.history.Drained()) ==>
              Outcome(KernargRequest(ptr), a) != Success
  {
    l, k, uploaded := 0, 0, rt.dev.mem;
    if !queue { return CL_INVALID_COMMAND_QUEUE, l, k, uploaded; }
    if kernel == null { return CL_INVALID_KERNEL, l, k, uploaded; }
    if !linked || !program.isBuilt { return CL_INVALID_PROGRAM_EXECUTABLE, l, k, uploaded; }
    if dim == 0 || dim > 3 || global.NoSizes? { return CL_INVALID_WORK_DIMENSION, l, k, uploaded; }
    if !pages { return CL_OUT_OF_HOST_MEMORY, l, k, uploaded; }
    var shape := ShapeOf(dim, global.v, local);
    LaunchPacketInNumbers(dim, global.v, local);
    st, l, k, uploaded := Launch(rt, ring, kernel, program, LaunchCommand(shape), ptr, a, kernels,
                                 loads, launches, waits, wakeUps, signal);
  }
}
