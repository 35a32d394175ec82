/** The XDMA descriptor chain: how the driver links it and what the hardware does when it walks it. */
module DmaChain {
  import opened Words
  import opened DmaMemory
  import opened DmaPages

  const DESC_MAGIC := 0xAD4B_0000
  const DESC_EOP := 1
  const DESC_SIZE := 32

  datatype Descriptor = Descriptor(control: u32, bytes: u32, src: u64, dst: u64, next: u64)

  /** The bus address of ring slot `i`. */
  function SlotAddr(base: nat, i: nat): nat {
    base + i * DESC_SIZE
  }

  /** Descriptor number `i` of a chain based at `base`; `segs` are the segments from there on. */
  function Link(segs: seq<Segment>, toDevice: bool, ddr3: u64, base: u64, i: nat): Descriptor
    requires segs != [] && base + (i + |segs|) * DESC_SIZE < TWO64
  {
    var s, last := segs[0], |segs| == 1;
    Descriptor(
      DESC_MAGIC + if last then DESC_EOP else 0,
      s.len,
      if toDevice then s.addr else ddr3,
      if toDevice then ddr3 else s.addr,
      if last then 0 else SlotAddr(base, i + 1))
  }

  function Chain(segs: seq<Segment>, toDevice: bool, ddr3: u64, base: u64, i: nat): (c: seq<Descriptor>)
    requires base + (i + |segs|) * DESC_SIZE < TWO64
    ensures |c| == |segs|
  {
    if segs == [] then []
    else [Link(segs, toDevice, ddr3, base, i)] + Chain(segs[1..], toDevice, Add64(ddr3, segs[0].len), base, i + 1)
  }

  lemma ChainUnfold(segs: seq<Segment>, toDevice: bool, cur: u64, base: u64, i: nat)
    requires i < |segs| && base + |segs| * DESC_SIZE < TWO64
    ensures Chain(segs[i..], toDevice, cur, base, i)
            == [Link(segs[i..], toDevice, cur, base, i)] + Chain(segs[i + 1..], toDevice, Add64(cur, segs[i].len), base, i + 1)
  {
    assert segs[i..][1..] == segs[i + 1..];
  }

  /** The words of descriptor `k` of a chain as the hardware reads them. */
  lemma {:induction false} ChainInNumbers(segs: seq<Segment>, toDevice: bool, ddr3: u64, base: u64, i: nat, k: nat)
    requires base + (i + |segs|) * 32 < 0x1_0000_0000_0000_0000 && k < |segs|
    ensures var d := Chain(segs, toDevice, ddr3, base, i)[k];
            && d.control == (if k == |segs| - 1 then 0xAD4B_0001 else 0xAD4B_0000)
            && d.bytes == segs[k].len
            && (if toDevice then d.src else d.dst) == segs[k].addr
            && d.next == (if k == |segs| - 1 then 0 else base + 32 * (i + k + 1))
    decreases k
  {
    if k > 0 { ChainInNumbers(segs[1..], toDevice, Add64(ddr3, segs[0].len), base, i + 1, k - 1); }
  }

  /** How the hardware leaves a walk: done, with the memory and the descriptors it visited, or stuck
      on something that is not a descriptor (or still walking after `fuel` descriptors). */
  datatype Walk = Done(mem: Memory, visited: seq<nat>) | Stuck

  /** Executing one descriptor. */
  function Execute(d: Descriptor, toDevice: bool, bus: u64 -> Loc, mem: Memory): Memory {
    if toDevice then
      mem.(ddr3 := Store(mem.ddr3, Range64(d.dst, d.bytes), Load(mem.host, Translate(bus, Range64(d.src, d.bytes)))))
    else
      mem.(host := Store(mem.host, Translate(bus, Range64(d.dst, d.bytes)), Load(mem.ddr3, Range64(d.src, d.bytes))))
  }

  function Executes(toDevice: bool, bus: u64 -> Loc): (Descriptor, Memory) -> Memory {
    (d, m) => Execute(d, toDevice, bus, m)
  }

  /** The hardware: fetch the descriptor at bus address `at`, check its magic, execute it, and follow
      `next` until the end-of-packet bit. */
  function Engine(ring: seq<Descriptor>, base: u64, at: u64, exec: (Descriptor, Memory) -> Memory, mem: Memory, fuel: nat): Walk
    decreases fuel
  {
    if fuel == 0 || at < base || (at - base) % DESC_SIZE != 0 || (at - base) / DESC_SIZE >= |ring| then Stuck
    else
      var i := (at - base) / DESC_SIZE;
      var d := ring[i];
      if d.control / 0x1_0000 != DESC_MAGIC / 0x1_0000 then Stuck
      else
        var mem' := exec(d, mem);
        if d.control % 2 == DESC_EOP then Done(mem', [i])
        else
          Prepend(i, Engine(ring, base, d.next, exec, mem', fuel - 1))
  }

  function Prepend(i: nat, w: Walk): Walk {
    if w.Done? then Done(w.mem, [i] + w.visited) else Stuck
  }

  lemma ExecuteCopies(s: Segment, d: Descriptor, toDevice: bool, ddr3: u64, bus: u64 -> Loc, mem: Memory)
    requires d.bytes == s.len && d.src == (if toDevice then s.addr else ddr3) && d.dst == (if toDevice then ddr3 else s.addr)
    requires Distinct(Translate(bus, Range64(s.addr, s.len)))
    ensures Copied(toDevice, mem, Execute(d, toDevice, bus, mem), Translate(bus, Range64(s.addr, s.len)), ddr3)
  {
    var locs := Translate(bus, Range64(s.addr, s.len));
    RangeDistinct(ddr3, s.len);
    if toDevice {
      StoreWrites(mem.ddr3, Range64(ddr3, s.len), Load(mem.host, locs));
    } else {
      StoreWrites(mem.host, locs, Load(mem.ddr3, Range64(ddr3, s.len)));
    }
  }

  lemma SlotInverse(base: nat, i: nat)
    ensures (SlotAddr(base, i) - base) / DESC_SIZE == i && (SlotAddr(base, i) - base) % DESC_SIZE == 0
  {}

  /** The link words of the descriptor in slot `k`. */
  predicate LinkWords(d: Descriptor, base: nat, k: nat, last: bool) {
    && d.control == (if last then DESC_MAGIC + DESC_EOP else DESC_MAGIC)
    && (!last ==> d.next == SlotAddr(base, k + 1))
  }

  predicate LinkedUp(ring: seq<Descriptor>, base: nat, i: nat, n: nat)
    requires i + n <= |ring|
  {
    forall k | i <= k < i + n :: LinkWords(ring[k], base, k, k == i + n - 1)
  }

  /** Fetching one linked descriptor: it is executed, and the next one fetched unless it is the last. */
  lemma FetchLink(ring: seq<Descriptor>, base: u64, exec: (Descriptor, Memory) -> Memory, mem: Memory, i: nat, last: bool, fuel: nat)
    requires i < |ring| && SlotAddr(base, i + 1) < TWO64 && fuel > 0 && LinkWords(ring[i], base, i, last)
    ensures Engine(ring, base, SlotAddr(base, i), exec, mem, fuel) ==
            if last then Done(exec(ring[i], mem), [i])
            else Prepend(i, Engine(ring, base, SlotAddr(base, i + 1), exec, exec(ring[i], mem), fuel - 1))
  {
    SlotInverse(base, i);
  }

  /** Executing `n` descriptors from slot `i` on, one slot after the other. */
  function Tour(ring: seq<Descriptor>, i: nat, n: nat, exec: (Descriptor, Memory) -> Memory, mem: Memory): Walk
    requires i + n <= |ring|
    decreases n
  {
    if n == 0 then Done(mem, []) else Prepend(i, Tour(ring, i + 1, n - 1, exec, exec(ring[i], mem)))
  }

  lemma TourStep(ring: seq<Descriptor>, i: nat, n: nat, exec: (Descriptor, Memory) -> Memory, mem: Memory)
    requires 0 < n && i + n <= |ring|
    ensures Tour(ring, i, n, exec, mem)
            == if n == 1 then Done(exec(ring[i], mem), [i])
               else Prepend(i, Tour(ring, i + 1, n - 1, exec, exec(ring[i], mem)))
  {
    assert [i] + [] == [i];
  }

  /** Following the links of a chain is executing its slots one after the other, whatever executing means. */
  lemma {:induction false} EngineTours(ring: seq<Descriptor>, base: u64, exec: (Descriptor, Memory) -> Memory, mem: Memory,
                                       i: nat, n: nat, fuel: nat) returns (w: Walk)
    requires 0 < n <= fuel && i + n <= |ring| && SlotAddr(base, i + n) < TWO64 && LinkedUp(ring, base, i, n)
    ensures w == Engine(ring, base, SlotAddr(base, i), exec, mem, fuel)
    ensures w == Tour(ring, i, n, exec, mem)
    decreases n
  {
    FetchLink(ring, base, exec, mem, i, n == 1, fuel);
    TourStep(ring, i, n, exec, mem);
    if n == 1 {
      w := Done(exec(ring[i], mem), [i]);
    } else {
      var w' := EngineTours(ring, base, exec, exec(ring[i], mem), i + 1, n - 1, fuel - 1);
      w := Prepend(i, w');
    }
  }

  lemma ChainLinksUp(ring: seq<Descriptor>, base: u64, segs: seq<Segment>, toDevice: bool, ddr3: u64, i: nat)
    requires i + |segs| <= |ring| && base + (i + |segs|) * DESC_SIZE < TWO64
    requires ring[i..i + |segs|] == Chain(segs, toDevice, ddr3, base, i)
    ensures LinkedUp(ring, base, i, |segs|)
  {
    forall k | i <= k < i + |segs|
      ensures LinkWords(ring[k], base, k, k == i + |segs| - 1)
    {
      assert ring[k] == ring[i..i + |segs|][k - i];
      ChainInNumbers(segs, toDevice, ddr3, base, i, k - i);
    }
  }

  lemma DistinctParts<L>(a: seq<L>, b: seq<L>)
    requires Distinct(a + b)
    ensures Distinct(a) && Distinct(b)
  {
    var c := a + b;
    assert forall i | 0 <= i < |a| :: c[i] == a[i];
    assert forall i | 0 <= i < |b| :: c[|a| + i] == b[i];
  }

  /** i, i + 1, ..., i + n - 1 */
  function Upward(i: nat, n: nat): (r: seq<nat>)
    ensures |r| == n && forall k | 0 <= k < n :: r[k] == i + k
    decreases n
  {
    if n == 0 then [] else [i] + Upward(i + 1, n - 1)
  }

  /** The walk ended properly: it visited |segs| descriptors upward from `i` and copied their bytes. */
  ghost predicate Walked(w: Walk, segs: seq<Segment>, toDevice: bool, ddr3: u64, bus: u64 -> Loc, mem: Memory, i: nat)
    requires |SegmentBytes(segs, bus)| < TWO32
  {
    && w.Done?
    && w.visited == Upward(i, |segs|)
    && Copied(toDevice, mem, w.mem, SegmentBytes(segs, bus), ddr3)
  }

  /** The walks of the first segment and of the rest join up. */
  lemma JoinWalks(segs: seq<Segment>, toDevice: bool, ddr3: u64, bus: u64 -> Loc,
                  mem: Memory, mem': Memory, w: Walk, w': Walk, i: nat)
    requires segs != [] && |SegmentBytes(segs, bus)| < TWO32 && Distinct(SegmentBytes(segs, bus))
    requires Copied(toDevice, mem, mem', Translate(bus, Range64(segs[0].addr, segs[0].len)), ddr3)
    requires |SegmentBytes(segs[1..], bus)| < TWO32
    requires Walked(w', segs[1..], toDevice, Add64(ddr3, segs[0].len), bus, mem', i + 1)
    requires w == Prepend(i, w')
    ensures Walked(w, segs, toDevice, ddr3, bus, mem, i)
  {
    CopiedCompose(toDevice, mem, mem', w'.mem,
                  Translate(bus, Range64(segs[0].addr, segs[0].len)), SegmentBytes(segs[1..], bus), ddr3);
  }

  /** Segments from slot `i` on that fit the ring, are linked in it, and name no host byte twice. */
  ghost predicate Linked(ring: seq<Descriptor>, base: u64, segs: seq<Segment>, toDevice: bool, ddr3: u64, bus: u64 -> Loc, i: nat) {
    && segs != [] && i + |segs| <= |ring| && base + (i + |segs|) * DESC_SIZE < TWO64
    && ring[i..i + |segs|] == Chain(segs, toDevice, ddr3, base, i)
    && |SegmentBytes(segs, bus)| < TWO32 && Distinct(SegmentBytes(segs, bus))
  }

  /** And that copies the segments' bytes. */
  lemma {:induction false} TourCopies(ring: seq<Descriptor>, base: u64, segs: seq<Segment>, toDevice: bool, ddr3: u64,
                                      bus: u64 -> Loc, mem: Memory, i: nat)
    requires Linked(ring, base, segs, toDevice, ddr3, bus, i)
    ensures Walked(Tour(ring, i, |segs|, Executes(toDevice, bus), mem), segs, toDevice, ddr3, bus, mem, i)
    decreases |segs|
  {
    ChainTail(ring, base, segs, toDevice, ddr3, i);
    DistinctParts(Translate(bus, Range64(segs[0].addr, segs[0].len)), SegmentBytes(segs[1..], bus));
    ExecuteCopies(segs[0], ring[i], toDevice, ddr3, bus, mem);
    var mem' := Execute(ring[i], toDevice, bus, mem);
    var rest := Tour(ring, i + 1, |segs| - 1, Executes(toDevice, bus), mem');
    if |segs| == 1 {
      LastWalk(segs, toDevice, ddr3, bus, mem, mem', i);
    } else {
      TourCopies(ring, base, segs[1..], toDevice, Add64(ddr3, segs[0].len), bus, mem', i + 1);
      JoinWalks(segs, toDevice, ddr3, bus, mem, mem', Prepend(i, rest), rest, i);
    }
  }

  /** Main result on the chain: from the ring base the hardware visits the descriptors 0, 1, ... in
      order, once each, stops at the last, and has copied exactly the segments' bytes. Whatever else
      the ring holds behind the chain is never looked at. */
  lemma WalkCopies(ring: seq<Descriptor>, base: u64, segs: seq<Segment>, toDevice: bool, ddr3: u64,
                   bus: u64 -> Loc, mem: Memory, i: nat, fuel: nat) returns (w: Walk)
    requires Linked(ring, base, segs, toDevice, ddr3, bus, i) && fuel >= |segs|
    ensures w == Engine(ring, base, SlotAddr(base, i), Executes(toDevice, bus), mem, fuel)
    ensures Walked(w, segs, toDevice, ddr3, bus, mem, i)
  {
    ChainLinksUp(ring, base, segs, toDevice, ddr3, i);
    w := EngineTours(ring, base, Executes(toDevice, bus), mem, i, |segs|, fuel);
    TourCopies(ring, base, segs, toDevice, ddr3, bus, mem, i);
  }

  lemma LastWalk(segs: seq<Segment>, toDevice: bool, ddr3: u64, bus: u64 -> Loc, mem: Memory, mem': Memory, i: nat)
    requires |segs| == 1
    requires Copied(toDevice, mem, mem', Translate(bus, Range64(segs[0].addr, segs[0].len)), ddr3)
    ensures SegmentBytes(segs, bus) == Translate(bus, Range64(segs[0].addr, segs[0].len))
    ensures Walked(Done(mem', [i]), segs, toDevice, ddr3, bus, mem, i)
  {
    assert segs[1..] == [];
    assert Upward(i, 1) == [i] + Upward(i + 1, 0);
  }

  lemma ChainTail(ring: seq<Descriptor>, base: u64, segs: seq<Segment>, toDevice: bool, ddr3: u64, i: nat)
    requires segs != [] && i + |segs| <= |ring| && base + (i + |segs|) * DESC_SIZE < TWO64
    requires ring[i..i + |segs|] == Chain(segs, toDevice, ddr3, base, i)
    ensures ring[i] == Link(segs, toDevice, ddr3, base, i)
    ensures ring[i + 1..i + 1 + |segs[1..]|] == Chain(segs[1..], toDevice, Add64(ddr3, segs[0].len), base, i + 1)
  {
    var chain := Chain(segs, toDevice, ddr3, base, i);
    assert ring[i] == ring[i..i + |segs|][0] == chain[0];
    assert ring[i + 1..i + |segs|] == ring[i..i + |segs|][1..] == chain[1..];
  }
}
