/** Device buffers as independent byte arrays: the abstract store, the DDR3 behind it, and the
    refinement between the two over every run of buffer calls. */
module ClStore {
  import opened Words
  import opened DmaMemory
  import opened Vram

  /** struct _cl_mem */
  datatype Buffer = Buffer(size: u64, ddr3: u64, refCount: int)

  /** The process: its page table (virtual page to frame) and the addresses its application owns at the
      moment, as opposed to memory the runtime library has allocated for itself. */
  datatype Process = Process(frame: nat -> nat, app: set<u64>) {
    function Where(v: nat): Loc {
      Loc(frame(v / PAGE_SIZE), v % PAGE_SIZE)
    }

    /** No two pages share a frame. */
    ghost predicate Unaliased() {
      forall p, q: nat | frame(p) == frame(q) :: p == q
    }

    function Range(ptr: u64, size: u32): (r: seq<Loc>)
      ensures |r| == size
    {
      seq(size, j requires 0 <= j < size => Where(ptr + j))
    }

    ghost predicate Owns(ptr: u64, size: nat) {
      ptr + size <= TWO64 && forall v: u64 | ptr <= v < ptr + size :: v in app
    }

    ghost predicate OwnsNone(ptr: u64, size: nat) {
      ptr + size <= TWO64 && forall v: u64 | ptr <= v < ptr + size :: v !in app
    }
  }

  /** The implementation's state: the two memories, the heap pointer, the live buffers by handle. */
  datatype State = State(mem: Memory, heap: u64, buffers: map<nat, Buffer>)

  /** Successful buffer calls; the kernel argument upload alone, and a whole launch, whose kernel writes
      the buffers `wrote`; calls that fail; and what the application does to its own memory between calls:
      it stores bytes, or allocates and frees, after which it owns `app`. */
  datatype Call =
    | Create(handle: nat, bytes: u64, copyFrom: u64)
    | Write(handle: nat, offset: u64, size: u32, ptr: u64)
    | Read(handle: nat, offset: u64, size: u32, ptr: u64)
    | Copy(src: nat, dst: nat, srcOffset: u64, dstOffset: u64, size: u32, bounce: u64)
    | Release(handle: nat)
    | Kernarg(ptr: u64)
    | Launch(ptr: u64, wrote: set<nat>)
    | AppStore(at: u64, data: seq<u8>)
    | Remap(app: set<u64>)
    | Failed(scratch: u64, size: u32)

  /** `size` bytes at `offset` lie inside a live buffer. */
  predicate Inside(buffers: map<nat, Buffer>, h: nat, offset: u64, size: u32) {
    h in buffers && offset + size <= buffers[h].size
  }

  /** The process after the call. */
  function Afterwards(p: Process, c: Call): Process {
    if c.Remap? then p.(app := c.app) else p
  }

  /** What each call does to the implementation's state. */
  ghost predicate Step(p: Process, s: State, c: Call, s': State) {
    match c
    case Create(h, size, from) => StepCreate(p, s, h, size, from, s')
    case Write(h, offset, size, ptr) => StepWrite(p, s, h, offset, size, ptr, s')
    case Read(h, offset, size, ptr) => StepRead(p, s, h, offset, size, ptr, s')
    case Copy(src, dst, so, do, size, bounce) => StepCopy(p, s, src, dst, so, do, size, bounce, s')
    case Release(h) => StepRelease(s, h, s')
    case Kernarg(ptr) => StepKernarg(p, s, ptr, s')
    case Launch(ptr, wrote) => Inv(s) && StepLaunch(p, s, ptr, wrote, s')
    case AppStore(at, data) => |data| < TWO32 && StepAppStore(p, s, at, data, s')
    case Remap(_) => s' == s
    case Failed(scratch, size) => StepFailed(p, s, scratch, size, s')
  }

  /** Only memory differs. */
  predicate SameTables(s: State, s': State) {
    s'.heap == s.heap && s'.buffers == s.buffers
  }

  /** Initial contents come from `from`, unless that is null. */
  ghost predicate StepCreate(p: Process, s: State, h: nat, size: u64, from: u64, s': State) {
    && h !in s.buffers && (s.heap, s'.heap) == AllocFrom(s.heap, size) && NoWrap(s.heap, size)
    && s'.buffers == s.buffers[h := Buffer(size, s.heap, 1)]
    && (if from == 0 then s'.mem == s.mem
        else size < TWO32 && p.Owns(from, size) && Copied(true, s.mem, s'.mem, p.Range(from, size), s.heap))
  }

  ghost predicate StepWrite(p: Process, s: State, h: nat, offset: u64, size: u32, ptr: u64, s': State) {
    && SameTables(s, s') && Inside(s.buffers, h, offset, size) && p.Owns(ptr, size)
    && Copied(true, s.mem, s'.mem, p.Range(ptr, size), Add64(s.buffers[h].ddr3, offset))
  }

  ghost predicate StepRead(p: Process, s: State, h: nat, offset: u64, size: u32, ptr: u64, s': State) {
    && SameTables(s, s') && Inside(s.buffers, h, offset, size) && p.Owns(ptr, size)
    && Copied(false, s.mem, s'.mem, p.Range(ptr, size), Add64(s.buffers[h].ddr3, offset))
  }

  ghost predicate StepCopy(p: Process, s: State, src: nat, dst: nat, so: u64, do: u64, size: u32, bounce: u64, s': State) {
    && SameTables(s, s') && Inside(s.buffers, src, so, size) && Inside(s.buffers, dst, do, size) && p.OwnsNone(bounce, size)
    && exists mid: Memory ::
         Copied(false, s.mem, mid, p.Range(bounce, size), Add64(s.buffers[src].ddr3, so))
         && Copied(true, mid, s'.mem, p.Range(bounce, size), Add64(s.buffers[dst].ddr3, do))
  }

  ghost predicate StepRelease(s: State, h: nat, s': State) {
    && h in s.buffers && s'.heap == s.heap && s'.mem == s.mem
    && var b := s.buffers[h];
       s'.buffers == if b.refCount == 1 then s.buffers - {h} else s.buffers[h := b.(refCount := b.refCount - 1)]
  }

  /** The library fills a page of its own and transfers it to the argument page of the device. */
  ghost predicate StepKernarg(p: Process, s: State, ptr: u64, s': State) {
    && SameTables(s, s') && p.OwnsNone(ptr, KERNARG_SIZE)
    && exists mid: Memory ::
         mid.ddr3 == s.mem.ddr3 && HostChangedOnly(p, s.mem, mid, ptr, KERNARG_SIZE)
         && Copied(true, mid, s'.mem, p.Range(ptr, KERNARG_SIZE), KERNARG_BASE)
  }

  /** A launch: besides the library's page nothing changes in host memory, and in device memory the kernel
      may write whatever it likes, but of the live buffers only those in `wrote`. */
  ghost predicate StepLaunch(p: Process, s: State, ptr: u64, wrote: set<nat>, s': State)
    requires Inv(s)
  {
    && SameTables(s, s') && p.OwnsNone(ptr, KERNARG_SIZE)
    && HostChangedOnly(p, s.mem, s'.mem, ptr, KERNARG_SIZE)
    && Rewritten(s, s'.mem) <= wrote
  }

  /** The live buffers whose bytes differ in `mem`. */
  ghost function Rewritten(s: State, mem: Memory): set<nat>
    requires Inv(s)
  {
    set h | h in s.buffers && Contents(mem, s.buffers[h]) != Contents(s.mem, s.buffers[h])
  }

  /** The application stores into its own memory. */
  ghost predicate StepAppStore(p: Process, s: State, at: u64, data: seq<u8>, s': State)
    requires |data| < TWO32
  {
    && SameTables(s, s') && s'.mem.ddr3 == s.mem.ddr3 && p.Owns(at, |data|)
    && Written(s.mem.host, s'.mem.host, p.Range(at, |data|), data)
  }

  ghost predicate HostChangedOnly(p: Process, mem: Memory, mem': Memory, ptr: u64, size: u32) {
    forall l: Loc | l !in p.Range(ptr, size) :: mem'.host(l) == mem.host(l)
  }

  /** Nothing but a scratch buffer of the library may have been written, and VRAM may have leaked. */
  ghost predicate StepFailed(p: Process, s: State, scratch: u64, size: u32, s': State) {
    && s'.buffers == s.buffers && s'.mem.ddr3 == s.mem.ddr3 && p.OwnsNone(scratch, size)
    && s.heap <= s'.heap && IsHeap(s'.heap)
    && HostChangedOnly(p, s.mem, s'.mem, scratch, size)
  }

  /** Every buffer lies in the part of the heap already handed out, and no two buffers share a byte. */
  ghost predicate Laid(heap: u64, buffers: map<nat, Buffer>) {
    && IsHeap(heap)
    && (forall h | h in buffers ::
          var b := buffers[h];
          b.size > 0 && VRAM_USER_BASE <= b.ddr3 && b.ddr3 + b.size <= heap && b.refCount == 1)
    && (forall h, o | h in buffers && o in buffers && h != o :: Apart(buffers[h], buffers[o]))
  }

  ghost predicate Inv(s: State) {
    Laid(s.heap, s.buffers)
  }

  predicate Apart(a: Buffer, b: Buffer) {
    a.ddr3 + a.size <= b.ddr3 || b.ddr3 + b.size <= a.ddr3
  }

  /** The abstract store: application memory and one byte array per live buffer. */
  datatype Arrays = Arrays(user: map<u64, u8>, bufs: map<nat, seq<u8>>)

  ghost function Contents(mem: Memory, b: Buffer): (r: seq<u8>)
    requires b.ddr3 + b.size <= TWO64
    ensures |r| == b.size
  {
    seq<u8>(b.size, i requires 0 <= i < b.size => mem.ddr3(b.ddr3 + i))
  }

  ghost function UserView(p: Process, mem: Memory): map<u64, u8> {
    map v | v in p.app :: mem.host(p.Where(v))
  }

  ghost function Abs(p: Process, s: State): Arrays
    requires Inv(s)
  {
    Arrays(UserView(p, s.mem), map h | h in s.buffers :: Contents(s.mem, s.buffers[h]))
  }

  /** `s` with the bytes from `at` on replaced by `data`. */
  function Splice(s: seq<u8>, at: nat, data: seq<u8>): (r: seq<u8>)
    requires at + |data| <= |s|
    ensures |r| == |s|
  {
    s[..at] + data + s[at + |data|..]
  }

  function UserBytes(user: map<u64, u8>, ptr: u64, size: nat): (r: seq<u8>)
    requires ptr + size <= TWO64 && forall v: u64 | ptr <= v < ptr + size :: v in user
    ensures |r| == size
  {
    seq(size, j requires 0 <= j < size => user[ptr + j])
  }

  function Overlay(user: map<u64, u8>, ptr: u64, data: seq<u8>): map<u64, u8> {
    map v | v in user :: if ptr <= v < ptr + |data| then data[v - ptr] else user[v]
  }

  ghost predicate Covers(user: map<u64, u8>, ptr: u64, size: nat) {
    ptr + size <= TWO64 && forall v: u64 | ptr <= v < ptr + size :: v in user
  }

  predicate Holds(bufs: map<nat, seq<u8>>, h: nat, offset: u64, size: u32) {
    h in bufs && offset + size <= |bufs[h]|
  }

  /** What each call does to the abstract store. */
  ghost predicate AbsStep(a: Arrays, c: Call, a': Arrays) {
    match c
    case Create(h, size, from) => AbsCreate(a, h, size, from, a')
    case Write(h, offset, size, ptr) => AbsWrite(a, h, offset, size, ptr, a')
    case Read(h, offset, size, ptr) => AbsRead(a, h, offset, size, ptr, a')
    case Copy(src, dst, so, do, size, _) => AbsCopy(a, src, dst, so, do, size, a')
    case Release(h) =>
      h in a.bufs && a' == Arrays(a.user, a.bufs - {h})
    case Kernarg(_) => a' == a
    case Launch(_, wrote) => AbsLaunch(a, wrote, a')
    case AppStore(at, data) => Covers(a.user, at, |data|) && a' == Arrays(Overlay(a.user, at, data), a.bufs)
    case Remap(app) => AbsRemap(a, app, a')
    case Failed(_, _) => a' == a
  }

  ghost predicate AbsWrite(a: Arrays, h: nat, offset: u64, size: u32, ptr: u64, a': Arrays) {
    && Holds(a.bufs, h, offset, size) && Covers(a.user, ptr, size)
    && a' == Arrays(a.user, a.bufs[h := Splice(a.bufs[h], offset, UserBytes(a.user, ptr, size))])
  }

  ghost predicate AbsRead(a: Arrays, h: nat, offset: u64, size: u32, ptr: u64, a': Arrays) {
    && Holds(a.bufs, h, offset, size) && Covers(a.user, ptr, size)
    && a' == Arrays(Overlay(a.user, ptr, a.bufs[h][offset..offset + size]), a.bufs)
  }

  ghost predicate AbsCopy(a: Arrays, src: nat, dst: nat, so: u64, do: u64, size: u32, a': Arrays) {
    && Holds(a.bufs, src, so, size) && Holds(a.bufs, dst, do, size)
    && a' == Arrays(a.user, a.bufs[dst := Splice(a.bufs[dst], do, a.bufs[src][so..so + size])])
  }

  /** A new array appears; its contents are the given bytes, or anything. */
  ghost predicate AbsCreate(a: Arrays, h: nat, size: u64, from: u64, a': Arrays) {
    && h !in a.bufs && a'.user == a.user
    && a'.bufs.Keys == a.bufs.Keys + {h} && |a'.bufs[h]| == size
    && (forall o | o in a.bufs :: a'.bufs[o] == a.bufs[o])
    && (from != 0 ==> Covers(a.user, from, size) && a'.bufs[h] == UserBytes(a.user, from, size))
  }

  /** The kernel leaves anything in the arrays it writes, but no array comes, goes or changes its length. */
  ghost predicate AbsLaunch(a: Arrays, wrote: set<nat>, a': Arrays) {
    && a'.user == a.user && a'.bufs.Keys == a.bufs.Keys
    && (forall h | h in a.bufs :: |a'.bufs[h]| == |a.bufs[h]| && (h !in wrote ==> a'.bufs[h] == a.bufs[h]))
  }

  /** What the application keeps, it keeps with its contents; what it gets holds anything. */
  ghost predicate AbsRemap(a: Arrays, app: set<u64>, a': Arrays) {
    && a'.bufs == a.bufs && a'.user.Keys == app
    && (forall v | v in app && v in a.user :: a'.user[v] == a.user[v])
  }

  /** A device write read at one address. */
  lemma DeviceByte(m: DevMem, m': DevMem, at: u64, n: u32, vs: seq<u8>, x: u64)
    requires at + n <= TWO64 && |vs| == n && Written(m, m', Range64(at, n), vs)
    ensures m'(x) == if at <= x < at + n then vs[x - at] else m(x)
  {
    var r := Range64(at, n);
    if at <= x < at + n {
      assert r[x - at] == x;
    } else {
      assert x !in r;
    }
  }

  /** A device write elsewhere leaves a buffer's contents. */
  lemma ContentsOutside(mem: Memory, mem': Memory, at: u64, n: u32, vs: seq<u8>, b: Buffer)
    requires at + n <= TWO64 && |vs| == n && Written(mem.ddr3, mem'.ddr3, Range64(at, n), vs)
    requires b.ddr3 + b.size <= at || at + n <= b.ddr3
    requires b.ddr3 + b.size < TWO64
    ensures Contents(mem', b) == Contents(mem, b)
  {
    forall i | 0 <= i < b.size
      ensures Contents(mem', b)[i] == Contents(mem, b)[i]
    {
      DeviceByte(mem.ddr3, mem'.ddr3, at, n, vs, b.ddr3 + i);
    }
  }

  /** A device write inside a buffer splices its contents. */
  lemma ContentsInside(mem: Memory, mem': Memory, offset: u64, n: u32, vs: seq<u8>, b: Buffer)
    requires b.ddr3 + b.size < TWO64 && offset + n <= b.size && |vs| == n
    requires Written(mem.ddr3, mem'.ddr3, Range64(b.ddr3 + offset, n), vs)
    ensures Contents(mem', b) == Splice(Contents(mem, b), offset, vs)
  {
    forall i | 0 <= i < b.size
      ensures Contents(mem', b)[i] == Splice(Contents(mem, b), offset, vs)[i]
    {
      DeviceByte(mem.ddr3, mem'.ddr3, b.ddr3 + offset, n, vs, b.ddr3 + i);
    }
  }

  lemma WhereDistinct(p: Process, v: nat, w: nat)
    requires p.Unaliased() && p.Where(v) == p.Where(w)
    ensures v == w
  {
    assert v / PAGE_SIZE == w / PAGE_SIZE;
  }

  lemma OutsideRange(p: Process, v: nat, ptr: u64, n: u32)
    requires p.Unaliased() && !(ptr <= v < ptr + n)
    ensures p.Where(v) !in p.Range(ptr, n)
  {
    var r := p.Range(ptr, n);
    if j :| 0 <= j < n && r[j] == p.Where(v) {
      WhereDistinct(p, v, ptr + j);
    }
  }

  /** A host write to a virtual range read through the page table. */
  lemma HostBytes(p: Process, m: HostMem, m': HostMem, ptr: u64, n: u32, vs: seq<u8>)
    requires p.Unaliased() && |vs| == n && Written(m, m', p.Range(ptr, n), vs)
    ensures forall v: nat :: m'(p.Where(v)) == if ptr <= v < ptr + n then vs[v - ptr] else m(p.Where(v))
  {
    var r := p.Range(ptr, n);
    forall v: nat
      ensures m'(p.Where(v)) == if ptr <= v < ptr + n then vs[v - ptr] else m(p.Where(v))
    {
      if ptr <= v < ptr + n {
        assert r[v - ptr] == p.Where(v);
      } else {
        OutsideRange(p, v, ptr, n);
      }
    }
  }

  /** Writing inside one buffer splices that buffer's bytes and leaves every other buffer alone. */
  lemma BufferWritten(s: State, mem': Memory, h: nat, offset: u64, n: u32, vs: seq<u8>)
    requires Inv(s) && Inside(s.buffers, h, offset, n) && |vs| == n
    requires Written(s.mem.ddr3, mem'.ddr3, Range64(Add64(s.buffers[h].ddr3, offset), n), vs)
    ensures Contents(mem', s.buffers[h]) == Splice(Contents(s.mem, s.buffers[h]), offset, vs)
    ensures forall o | o in s.buffers && o != h :: Contents(mem', s.buffers[o]) == Contents(s.mem, s.buffers[o])
  {
    var b := s.buffers[h];
    ContentsInside(s.mem, mem', offset, n, vs, b);
    forall o | o in s.buffers && o != h
      ensures Contents(mem', s.buffers[o]) == Contents(s.mem, s.buffers[o])
    {
      assert Apart(b, s.buffers[o]);
      ContentsOutside(s.mem, mem', b.ddr3 + offset, n, vs, s.buffers[o]);
    }
  }

  /** Loading a stretch of a buffer from the device is slicing its array. */
  lemma BufferLoaded(s: State, h: nat, offset: u64, n: u32)
    requires Inv(s) && Inside(s.buffers, h, offset, n)
    ensures Load(s.mem.ddr3, Range64(Add64(s.buffers[h].ddr3, offset), n)) == Contents(s.mem, s.buffers[h])[offset..offset + n]
  {}

  /** Loading owned application memory is reading its view. */
  lemma UserLoaded(p: Process, mem: Memory, ptr: u64, n: u32)
    requires p.Owns(ptr, n)
    ensures Covers(UserView(p, mem), ptr, n)
    ensures Load(mem.host, p.Range(ptr, n)) == UserBytes(UserView(p, mem), ptr, n)
  {}

  lemma WriteRefines(p: Process, s: State, h: nat, offset: u64, n: u32, ptr: u64, s': State)
    requires Inv(s) && StepWrite(p, s, h, offset, n, ptr, s')
    ensures Inv(s') && AbsWrite(Abs(p, s), h, offset, n, ptr, Abs(p, s'))
  {
    UserLoaded(p, s.mem, ptr, n);
    BufferWritten(s, s'.mem, h, offset, n, Load(s.mem.host, p.Range(ptr, n)));
    assert Abs(p, s').bufs == Abs(p, s).bufs[h := Contents(s'.mem, s.buffers[h])];
  }

  /** A device read lays the buffer's bytes over the owned range and changes nothing else in view. */
  lemma ReadView(p: Process, s: State, h: nat, offset: u64, n: u32, ptr: u64, mem': Memory)
    requires p.Unaliased() && Inv(s) && Inside(s.buffers, h, offset, n)
    requires Copied(false, s.mem, mem', p.Range(ptr, n), Add64(s.buffers[h].ddr3, offset))
    ensures mem'.ddr3 == s.mem.ddr3
    ensures var data := Contents(s.mem, s.buffers[h])[offset..offset + n];
            && UserView(p, mem') == Overlay(UserView(p, s.mem), ptr, data)
            && Load(mem'.host, p.Range(ptr, n)) == data
            && (p.OwnsNone(ptr, n) ==> UserView(p, mem') == UserView(p, s.mem))
  {
    BufferLoaded(s, h, offset, n);
    HostBytes(p, s.mem.host, mem'.host, ptr, n, Contents(s.mem, s.buffers[h])[offset..offset + n]);
  }

  lemma SameArrays(p: Process, s: State, s': State)
    requires Inv(s) && Inv(s') && s.buffers == s'.buffers && s.mem.ddr3 == s'.mem.ddr3
    ensures Abs(p, s').bufs == Abs(p, s).bufs
  {}

  lemma ReadRefines(p: Process, s: State, h: nat, offset: u64, n: u32, ptr: u64, s': State)
    requires p.Unaliased() && Inv(s) && StepRead(p, s, h, offset, n, ptr, s')
    ensures Inv(s') && AbsRead(Abs(p, s), h, offset, n, ptr, Abs(p, s'))
  {
    ReadView(p, s, h, offset, n, ptr, s'.mem);
    SameArrays(p, s, s');
    var a, a' := Abs(p, s), Abs(p, s');
    assert a.bufs[h] == Contents(s.mem, s.buffers[h]);
    assert a'.user == Overlay(a.user, ptr, a.bufs[h][offset..offset + n]);
  }

  /** The bounce buffer takes a snapshot of the source range before the destination is touched, so source
      and destination may overlap in one buffer. */
  lemma CopyRefines(p: Process, s: State, src: nat, dst: nat, so: u64, do: u64, n: u32, bounce: u64, s': State)
    requires p.Unaliased() && Inv(s) && StepCopy(p, s, src, dst, so, do, n, bounce, s')
    ensures Inv(s') && AbsCopy(Abs(p, s), src, dst, so, do, n, Abs(p, s'))
  {
    var range := p.Range(bounce, n);
    var mid: Memory :| Copied(false, s.mem, mid, range, Add64(s.buffers[src].ddr3, so))
                       && Copied(true, mid, s'.mem, range, Add64(s.buffers[dst].ddr3, do));
    ReadView(p, s, src, so, n, bounce, mid);
    BufferWritten(s, s'.mem, dst, do, n, Contents(s.mem, s.buffers[src])[so..so + n]);
    var a, a' := Abs(p, s), Abs(p, s');
    assert a.bufs[src] == Contents(s.mem, s.buffers[src]) && a.bufs[dst] == Contents(s.mem, s.buffers[dst]);
    assert a'.bufs == a.bufs[dst := Contents(s'.mem, s.buffers[dst])];
  }

  lemma CreateInv(p: Process, s: State, h: nat, size: u64, from: u64, s': State)
    requires Inv(s) && StepCreate(p, s, h, size, from, s')
    ensures Inv(s') && s.heap + size <= TWO64
    ensures forall o | o in s.buffers :: Contents(s'.mem, s.buffers[o]) == Contents(s.mem, s.buffers[o])
    ensures from != 0 ==> Contents(s'.mem, Buffer(size, s.heap, 1)) == Load(s.mem.host, p.Range(from, size))
  {
    AllocatedSize(s.heap, size, s'.heap);
    if from != 0 {
      var vs := Load(s.mem.host, p.Range(from, size));
      ContentsInside(s.mem, s'.mem, 0, size, vs, Buffer(size, s.heap, 1));
      forall o | o in s.buffers
        ensures Contents(s'.mem, s.buffers[o]) == Contents(s.mem, s.buffers[o])
      {
        ContentsOutside(s.mem, s'.mem, s.heap, size, vs, s.buffers[o]);
      }
    }
  }

  lemma CreateRefines(p: Process, s: State, h: nat, size: u64, from: u64, s': State)
    requires Inv(s) && StepCreate(p, s, h, size, from, s')
    ensures Inv(s') && AbsCreate(Abs(p, s), h, size, from, Abs(p, s'))
  {
    CreateInv(p, s, h, size, from, s');
    if from != 0 { UserLoaded(p, s.mem, from, size); }
    var a, a', b := Abs(p, s), Abs(p, s'), Buffer(size, s.heap, 1);
    assert a'.bufs.Keys == a.bufs.Keys + {h};
    assert a'.bufs[h] == Contents(s'.mem, b);
    forall o | o in a.bufs
      ensures a'.bufs[o] == a.bufs[o]
    {
      assert s'.buffers[o] == s.buffers[o];
    }
  }

  /** Scratch memory of the library is no part of the application's view. */
  lemma ScratchUnseen(p: Process, mem: Memory, mem': Memory, ptr: u64, n: u32)
    requires p.Unaliased() && p.OwnsNone(ptr, n) && HostChangedOnly(p, mem, mem', ptr, n)
    ensures UserView(p, mem') == UserView(p, mem)
  {
    forall v | v in p.app
      ensures mem'.host(p.Where(v)) == mem.host(p.Where(v))
    {
      OutsideRange(p, v, ptr, n);
    }
  }

  /** A launch's argument page lies below every buffer. */
  lemma KernargRefines(p: Process, s: State, ptr: u64, s': State)
    requires p.Unaliased() && Inv(s) && StepKernarg(p, s, ptr, s')
    ensures Inv(s') && Abs(p, s') == Abs(p, s)
  {
    var mid: Memory :| mid.ddr3 == s.mem.ddr3 && HostChangedOnly(p, s.mem, mid, ptr, KERNARG_SIZE)
                       && Copied(true, mid, s'.mem, p.Range(ptr, KERNARG_SIZE), KERNARG_BASE);
    ScratchUnseen(p, s.mem, mid, ptr, KERNARG_SIZE);
    forall h | h in s.buffers
      ensures Contents(s'.mem, s.buffers[h]) == Contents(s.mem, s.buffers[h])
    {
      ContentsOutside(mid, s'.mem, KERNARG_BASE, KERNARG_SIZE, Load(mid.host, p.Range(ptr, KERNARG_SIZE)), s.buffers[h]);
    }
    assert Abs(p, s').bufs == Abs(p, s).bufs;
  }

  /** A launch changes only the buffers its kernel writes. */
  lemma LaunchRefines(p: Process, s: State, ptr: u64, wrote: set<nat>, s': State)
    requires p.Unaliased() && Inv(s) && StepLaunch(p, s, ptr, wrote, s')
    ensures Inv(s') && AbsLaunch(Abs(p, s), wrote, Abs(p, s'))
  {
    ScratchUnseen(p, s.mem, s'.mem, ptr, KERNARG_SIZE);
    forall h | h in s.buffers && h !in wrote
      ensures Contents(s'.mem, s.buffers[h]) == Contents(s.mem, s.buffers[h])
    {
      assert h !in Rewritten(s, s'.mem);
    }
  }

  lemma AppStoreRefines(p: Process, s: State, at: u64, data: seq<u8>, s': State)
    requires p.Unaliased() && Inv(s) && |data| < TWO32 && StepAppStore(p, s, at, data, s')
    ensures Inv(s') && Abs(p, s') == Arrays(Overlay(Abs(p, s).user, at, data), Abs(p, s).bufs)
    ensures Covers(Abs(p, s).user, at, |data|)
  {
    HostBytes(p, s.mem.host, s'.mem.host, at, |data|, data);
    SameArrays(p, s, s');
    assert UserView(p, s'.mem) == Overlay(UserView(p, s.mem), at, data);
  }

  lemma FailedRefines(p: Process, s: State, scratch: u64, n: u32, s': State)
    requires p.Unaliased() && Inv(s) && StepFailed(p, s, scratch, n, s')
    ensures Inv(s') && Abs(p, s') == Abs(p, s)
  {
    ScratchUnseen(p, s.mem, s'.mem, scratch, n);
  }

  lemma ReleaseRefines(p: Process, s: State, h: nat, s': State)
    requires Inv(s) && StepRelease(s, h, s')
    ensures Inv(s') && AbsStep(Abs(p, s), Release(h), Abs(p, s'))
  {}

  /** Main result, one call: the implementation keeps its invariant and does what the arrays do. */
  lemma StepRefines(p: Process, s: State, c: Call, s': State)
    requires p.Unaliased() && Inv(s) && Step(p, s, c, s')
    ensures Inv(s') && Afterwards(p, c).Unaliased() && AbsStep(Abs(p, s), c, Abs(Afterwards(p, c), s'))
  {
    match c
    case Create(h, size, from) => CreateRefines(p, s, h, size, from, s');
    case Write(h, offset, n, ptr) => WriteRefines(p, s, h, offset, n, ptr, s');
    case Read(h, offset, n, ptr) => ReadRefines(p, s, h, offset, n, ptr, s');
    case Copy(src, dst, so, do, n, bounce) => CopyRefines(p, s, src, dst, so, do, n, bounce, s');
    case Release(h) => ReleaseRefines(p, s, h, s');
    case Kernarg(ptr) => KernargRefines(p, s, ptr, s');
    case Launch(ptr, wrote) => LaunchRefines(p, s, ptr, wrote, s');
    case AppStore(at, data) => AppStoreRefines(p, s, at, data, s');
    case Remap(app) => RemapRefines(p, s, app);
    case Failed(scratch, n) => FailedRefines(p, s, scratch, n, s');
  }

  lemma RemapRefines(p: Process, s: State, app: set<u64>)
    requires p.Unaliased() && Inv(s)
    ensures p.(app := app).Unaliased() && AbsRemap(Abs(p, s), app, Abs(p.(app := app), s))
  {
    assert Abs(p.(app := app), s).user.Keys == app;
  }

  /** A run: processes and states alternate with calls. */
  ghost predicate Run(ps: seq<Process>, states: seq<State>, calls: seq<Call>) {
    && |ps| == |states| == |calls| + 1
    && (forall i | 0 <= i < |calls| ::
          Step(ps[i], states[i], calls[i], states[i + 1]) && ps[i + 1] == Afterwards(ps[i], calls[i]))
  }

  ghost predicate AbsRun(arrays: seq<Arrays>, calls: seq<Call>) {
    && |arrays| == |calls| + 1
    && (forall i | 0 <= i < |calls| :: AbsStep(arrays[i], calls[i], arrays[i + 1]))
  }

  lemma {:induction false} RunInv(ps: seq<Process>, states: seq<State>, calls: seq<Call>, i: nat)
    requires Run(ps, states, calls) && ps[0].Unaliased() && Inv(states[0]) && i < |states|
    ensures Inv(states[i]) && ps[i].Unaliased()
  {
    if i > 0 {
      RunInv(ps, states, calls, i - 1);
      StepAt(ps, states, calls, i - 1);
    }
  }

  ghost function AbsAll(ps: seq<Process>, states: seq<State>): (arrays: seq<Arrays>)
    requires |ps| == |states| && forall i | 0 <= i < |states| :: Inv(states[i])
    ensures |arrays| == |states| && forall i | 0 <= i < |states| :: arrays[i] == Abs(ps[i], states[i])
  {
    seq(|states|, i requires 0 <= i < |states| => Abs(ps[i], states[i]))
  }

  /** Main result, every run: a run over the one DDR3 is a run over independent byte arrays. */
  lemma RunRefines(ps: seq<Process>, states: seq<State>, calls: seq<Call>)
    requires Run(ps, states, calls) && ps[0].Unaliased() && Inv(states[0])
    ensures forall i | 0 <= i < |states| :: Inv(states[i])
    ensures AbsRun(AbsAll(ps, states), calls)
  {
    forall i | 0 <= i < |states|
      ensures Inv(states[i])
    {
      RunInv(ps, states, calls, i);
    }
    var arrays := AbsAll(ps, states);
    forall i | 0 <= i < |calls|
      ensures AbsStep(arrays[i], calls[i], arrays[i + 1])
    {
      RunInv(ps, states, calls, i);
      StepAt(ps, states, calls, i);
    }
  }

  lemma StepAt(ps: seq<Process>, states: seq<State>, calls: seq<Call>, i: nat)
    requires Run(ps, states, calls) && i < |calls|
    requires Inv(states[i]) && ps[i].Unaliased()
    ensures Inv(states[i + 1]) && ps[i + 1].Unaliased()
    ensures AbsStep(Abs(ps[i], states[i]), calls[i], Abs(ps[i + 1], states[i + 1]))
  {
    StepRefines(ps[i], states[i], calls[i], states[i + 1]);
  }

  /** The call may change byte `b` of the array of `h`. */
  predicate Touches(c: Call, h: nat, b: nat) {
    match c
    case Write(o, offset, n, _) => o == h && offset <= b < offset + n
    case Copy(_, o, _, offset, n, _) => o == h && offset <= b < offset + n
    case Release(o) => o == h
    case Launch(_, wrote) => h in wrote
    case _ => false
  }

  /** The call puts `x` into byte `b` of the array of `h`: from application memory by a write or as initial
      contents, or from another array. */
  predicate Puts(a: Arrays, c: Call, h: nat, b: nat, x: u8) {
    match c
    case Write(o, offset, n, ptr) => o == h && offset <= b < offset + n && UserHas(a, ptr + (b - offset), x)
    case Create(o, size, from) => o == h && from != 0 && b < size && UserHas(a, from + b, x)
    case Copy(src, o, so, do, n, _) => o == h && do <= b < do + n && ArrayHas(a, src, so + (b - do), x)
    case _ => false
  }

  predicate UserHas(a: Arrays, v: nat, x: u8) {
    v in a.user && a.user[v] == x
  }

  predicate ArrayHas(a: Arrays, h: nat, b: nat, x: u8) {
    h in a.bufs && b < |a.bufs[h]| && a.bufs[h][b] == x
  }

  lemma PutsStep(a: Arrays, c: Call, h: nat, b: nat, x: u8, a': Arrays)
    requires AbsStep(a, c, a') && Puts(a, c, h, b, x)
    ensures ArrayHas(a', h, b, x)
  {}

  lemma UntouchedStep(a: Arrays, c: Call, h: nat, b: nat, x: u8, a': Arrays)
    requires AbsStep(a, c, a') && !Touches(c, h, b) && ArrayHas(a, h, b, x)
    ensures ArrayHas(a', h, b, x)
  {}

  lemma {:induction false} Untouched(arrays: seq<Arrays>, calls: seq<Call>, h: nat, b: nat, x: u8)
    requires AbsRun(arrays, calls) && ArrayHas(arrays[0], h, b, x)
    requires forall i | 0 <= i < |calls| :: !Touches(calls[i], h, b)
    ensures ArrayHas(arrays[|calls|], h, b, x)
  {
    if calls != [] {
      var n := |calls| - 1;
      Untouched(arrays[..n + 1], calls[..n], h, b, x);
      UntouchedStep(arrays[n], calls[n], h, b, x, arrays[n + 1]);
    }
  }

  /** A read sees what was last put into each byte: when a write, a copy or a creation put `x` into byte `b`
      of a buffer and no later call touched that byte, any read that covers it delivers `x`, whatever else
      was done to this buffer, to others and to the application's memory in between. */
  lemma ReadsLastWrite(arrays: seq<Arrays>, calls: seq<Call>, h: nat, b: nat, x: u8, from: u64, count: u32, dst: u64)
    requires AbsRun(arrays, calls) && |calls| >= 2
    requires Puts(arrays[0], calls[0], h, b, x) && calls[|calls| - 1] == Read(h, from, count, dst)
    requires from <= b < from + count
    requires forall i | 0 < i < |calls| - 1 :: !Touches(calls[i], h, b)
    ensures UserHas(arrays[|calls|], dst + (b - from), x)
  {
    var last := |calls| - 1;
    PutsStep(arrays[0], calls[0], h, b, x, arrays[1]);
    Untouched(arrays[1..last + 1], calls[1..last], h, b, x);
    assert AbsStep(arrays[last], calls[last], arrays[last + 1]);
  }

  /** A virtual range has no byte twice. */
  lemma RangeInjective(p: Process, ptr: u64, n: u32)
    requires p.Unaliased()
    ensures Distinct(p.Range(ptr, n))
  {
    var r := p.Range(ptr, n);
    forall i, j | 0 <= i < j < |r|
      ensures r[i] != r[j]
    {
      if r[i] == r[j] { WhereDistinct(p, ptr + i, ptr + j); }
    }
  }
}
