/** The DMA_TRANSFER request of the driver, over the device's scratch fields and the machine around it. */
module DmaDevice {
  import opened Words
  import opened DmaMemory
  import opened DmaPages
  import opened DmaChain

  const DMA_TO_DEVICE := 0
  const DMA_FROM_DEVICE := 1
  const MAX_TRANSFER := 32 * 1024 * 1024
  const POLL_LIMIT := 10_000_000
  const ULONG_MAX := TWO64 - 1

  datatype Status = Success | EINVAL | EFAULT | ENOMEM | ETIMEDOUT | PinError(code: int)

  /** struct fpgagpu_dma_param */
  datatype Request = Request(direction: u32, size: u32, ddr3: u64, vaddr: u64) {
    function Offset(): nat { vaddr % PAGE_SIZE }
    function Pages(): nat { PageCount(Offset(), size) }

    /** The argument checks, in the driver's order. */
    predicate Accepted() {
      && size != 0 && vaddr != 0
      && size <= MAX_TRANSFER
      && vaddr <= ULONG_MAX - (size - 1)
      && Pages() <= MAX_PAGES
      && (direction == DMA_TO_DEVICE || direction == DMA_FROM_DEVICE)
    }
  }

  /** What the kernel and the hardware answer during one request: the result of get_user_pages_fast and
      the frames behind the range, whether kmalloc_array succeeds, the mapped segments (none when
      dma_map_sg fails) with their bus translation, and how often the busy bit reads as set. */
  datatype Answers = Answers(gup: int, frames: seq<nat>, sglAllocated: bool,
                             segs: seq<Segment>, bus: u64 -> Loc, busyPolls: nat) {
    /** The contracts of those calls. */
    ghost predicate Honest(r: Request) {
      r.Accepted() ==>
        && |frames| == r.Pages() && Distinct(frames)
        && gup <= r.Pages()
        && (segs != [] ==> MapsTo(Pieces(frames, r.Offset(), r.size), segs, bus))
    }

    /** The request gets as far as starting the hardware. */
    predicate Starts(r: Request) {
      r.Accepted() && gup == r.Pages() && sglAllocated && segs != []
    }
  }

  /** Which status a request ends with. */
  function Outcome(r: Request, a: Answers): Status {
    if !r.Accepted() then EINVAL
    else if a.gup < 0 then PinError(a.gup)
    else if a.gup != r.Pages() then EFAULT
    else if !a.sglAllocated || a.segs == [] then ENOMEM
    else if a.busyPolls >= POLL_LIMIT then ETIMEDOUT
    else Success
  }

  /** Which status a request ends with, in numbers. */
  lemma OutcomeInNumbers(r: Request, a: Answers)
    ensures var pages := (r.vaddr % 4096 + r.size + 4095) / 4096;
            Outcome(r, a) ==
            if r.size == 0 || r.size > 0x200_0000 || r.vaddr == 0 || r.vaddr + r.size > 0x1_0000_0000_0000_0000
               || pages > 8192 || r.direction > 1 then EINVAL
            else if a.gup < 0 then PinError(a.gup)
            else if a.gup != pages then EFAULT
            else if !a.sglAllocated || |a.segs| == 0 then ENOMEM
            else if a.busyPolls >= 10_000_000 then ETIMEDOUT
            else Success
  {}

  /** The host bytes a request names. */
  function HostRange(r: Request, a: Answers): seq<Loc>
    requires |a.frames| == r.Pages()
  {
    RangeBytes(a.frames, r.Offset(), r.size)
  }

  /** What is mapped is the range that was asked for, byte by byte and without repetition. */
  lemma MappedRange(r: Request, a: Answers)
    requires r.Accepted() && a.Honest(r) && a.segs != []
    ensures SegmentBytes(a.segs, a.bus) == HostRange(r, a) && Distinct(HostRange(r, a)) && |a.segs| <= r.Pages()
  {
    PiecesPartition(a.frames, r.Offset(), r.size);
    RangeBytesDistinct(a.frames, r.Offset(), r.size);
  }

  /** What a request does to memory: a successful one is one copy of the range, one that never starts the
      hardware changes nothing, and after a time-out nothing is known. */
  ghost predicate MemoryEffect(r: Request, a: Answers, mem: Memory, mem': Memory) {
    if !a.Starts(r) then mem' == mem
    else Outcome(r, a) == Success ==>
      |a.frames| == r.Pages() && Copied(r.direction == DMA_TO_DEVICE, mem, mem', HostRange(r, a), r.ddr3)
  }

  /** Every request has ended with its status and had its effect on memory. */
  ghost predicate Served(rs: seq<(Request, Answers)>, sts: seq<Status>, mems: seq<Memory>) {
    && |sts| == |rs| && |mems| == |rs| + 1
    && (forall i | 0 <= i < |rs| :: sts[i] == Outcome(rs[i].0, rs[i].1) && MemoryEffect(rs[i].0, rs[i].1, mems[i], mems[i + 1]))
  }

  lemma ServedStep(rs: seq<(Request, Answers)>, n: nat, sts: seq<Status>, mems: seq<Memory>, st: Status, mem: Memory)
    requires n < |rs| && Served(rs[..n], sts, mems)
    requires st == Outcome(rs[n].0, rs[n].1) && MemoryEffect(rs[n].0, rs[n].1, mems[n], mem)
    ensures Served(rs[..n + 1], sts + [st], mems + [mem])
  {
    forall i | 0 <= i <= n
      ensures (sts + [st])[i] == Outcome(rs[i].0, rs[i].1)
      ensures MemoryEffect(rs[i].0, rs[i].1, (mems + [mem])[i], (mems + [mem])[i + 1])
    {
      if i < n { assert rs[..n][i] == rs[i]; }
    }
  }

  function PageSet(pages: seq<nat>): set<nat> {
    set p | p in pages
  }

  /** One turn of a release loop: `pins` loses one reference to page `i`, and the dirty set gains the page. */
  lemma ReleaseStep(pages: seq<nat>, i: nat, before: multiset<nat>, pins: multiset<nat>)
    requires i < |pages| && pins == before + multiset(pages[i..])
    ensures pages[i] in pins && pins - multiset{pages[i]} == before + multiset(pages[i + 1..])
    ensures PageSet(pages[..i + 1]) == PageSet(pages[..i]) + {pages[i]}
  {
    assert pages[..i + 1] == pages[..i] + [pages[i]];
    assert pages[i..] == [pages[i]] + pages[i + 1..];
  }

  /** One turn of the page-splitting loop. */
  lemma PiecesStep(done: seq<SgEntry>, pages: seq<nat>, i: nat, offset: nat, remaining: nat)
    requires i < |pages| && offset < PAGE_SIZE
    ensures var length := Min(remaining, PAGE_SIZE - offset);
            done + Pieces(pages[i..], offset, remaining)
            == done + [SgEntry(pages[i], length, offset)] + Pieces(pages[i + 1..], 0, remaining - length)
  {
    assert pages[i..][1..] == pages[i + 1..];
  }

  class Device {
    const descRing: array<Descriptor>
    const descBase: u64
    const pinnedPages: array<nat>
    var numPinned: int
    var sgl: array?<SgEntry>
    var sglNents: nat

    // The machine around the driver: memory, page references, DMA mappings, pages marked dirty.
    var mem: Memory
    var pins: multiset<nat>
    var mappings: nat
    var dirty: set<nat>

    ghost predicate Valid()
      reads this
    {
      && descRing.Length == MAX_PAGES && pinnedPages.Length == MAX_PAGES
      && descBase + MAX_PAGES * DESC_SIZE < TWO64
      && sgl == null
    }

    constructor (base: u64, initial: Memory)
      requires base + MAX_PAGES * DESC_SIZE < TWO64
      ensures Valid() && fresh(descRing) && fresh(pinnedPages)
      ensures mem == initial && pins == multiset{} && mappings == 0 && dirty == {}
    {
      descRing := new Descriptor[MAX_PAGES](_ => Descriptor(0, 0, 0, 0, 0));
      pinnedPages := new nat[MAX_PAGES](_ => 0);
      descBase, numPinned, sgl, sglNents := base, 0, null, 0;
      mem, pins, mappings, dirty := initial, multiset{}, 0, {};
    }

    /** get_user_pages_fast: pins the first `gup` frames, or none on error. */
    method GetUserPages(a: Answers)
      requires pinnedPages.Length == MAX_PAGES && a.gup <= |a.frames| <= MAX_PAGES
      modifies this`numPinned, this`pins, pinnedPages
      ensures numPinned == a.gup
      ensures a.gup >= 0 ==> pinnedPages[..a.gup] == a.frames[..a.gup] && pins == old(pins) + multiset(a.frames[..a.gup])
      ensures a.gup < 0 ==> pins == old(pins)
    {
      numPinned := a.gup;
      if a.gup >= 0 {
        forall i | 0 <= i < a.gup { pinnedPages[i] := a.frames[i]; }
        pins := pins + multiset(a.frames[..a.gup]);
      }
    }

    /** put_page: a page may only be released while a reference to it is held. */
    method PutPage(p: nat)
      requires p in pins
      modifies this`pins
      ensures pins == old(pins) - multiset{p}
    {
      pins := pins - multiset{p};
    }

    /** The release loops: every pinned page once, marked dirty first when the device wrote to it. */
    method ReleasePages(written: bool, ghost before: multiset<nat>)
      requires 0 <= numPinned <= pinnedPages.Length
      requires pins == before + multiset(pinnedPages[..numPinned])
      modifies this`pins, this`dirty, this`numPinned
      ensures pins == before && numPinned == 0
      ensures dirty == old(dirty) + if written then PageSet(old(pinnedPages[..numPinned])) else {}
    {
      var i := 0;
      ghost var pages := pinnedPages[..numPinned];
      while i < numPinned
        invariant 0 <= i <= numPinned == |pages|
        invariant pins == before + multiset(pages[i..])
        invariant dirty == old(dirty) + if written then PageSet(pages[..i]) else {}
      {
        ReleaseStep(pages, i, before, pins);
        if written {
          dirty := dirty + {pinnedPages[i]};
        }
        PutPage(pinnedPages[i]);
        i := i + 1;
      }
      assert pages[i..] == [] && pages[..i] == pages;
      numPinned := 0;
    }

    /** The page-splitting loop. */
    method FillSgl(table: array<SgEntry>, offset: nat, size: u32)
      requires 0 < numPinned <= pinnedPages.Length && table.Length == numPinned
      requires offset < PAGE_SIZE && size > 0 && numPinned == PageCount(offset, size)
      modifies table
      ensures table[..] == Pieces(pinnedPages[..numPinned], offset, size)
    {
      var pageOffset, remaining := offset, size as int;
      ghost var pages := pinnedPages[..numPinned];
      var i := 0;
      while i < numPinned
        invariant 0 <= i <= numPinned && 0 <= pageOffset < PAGE_SIZE && 0 <= remaining <= size
        invariant table[..i] + Pieces(pages[i..], pageOffset, remaining) == Pieces(pages, offset, size)
      {
        var length := Min(remaining, PAGE_SIZE - pageOffset);
        PiecesStep(table[..i], pages, i, pageOffset, remaining);
        table[i] := SgEntry(pinnedPages[i], length, pageOffset);
        assert table[..i + 1] == table[..i] + [table[i]];
        remaining := remaining - length;
        pageOffset := 0;
        i := i + 1;
      }
      assert table[..i] == table[..];
    }

    /** One turn of the descriptor loop. */
    function FillDescriptor(s: Segment, i: nat, toDevice: bool, cur: u64): Descriptor
      requires i < sglNents && descBase + sglNents * DESC_SIZE < TWO64
      reads this
    {
      var src, dst := if toDevice then s.addr else cur, if toDevice then cur else s.addr;
      if i < sglNents - 1 then Descriptor(DESC_MAGIC, s.len, src, dst, SlotAddr(descBase, i + 1))
      else Descriptor(DESC_MAGIC + DESC_EOP, s.len, src, dst, 0)
    }

    /** The descriptor loop. */
    method BuildChain(segs: seq<Segment>, toDevice: bool, ddr3: u64)
      requires 0 < |segs| <= descRing.Length == MAX_PAGES && descBase + MAX_PAGES * DESC_SIZE < TWO64
      requires sglNents == |segs|
      modifies descRing
      ensures descRing[..|segs|] == Chain(segs, toDevice, ddr3, descBase, 0)
      ensures descRing[|segs|..] == old(descRing[|segs|..])
    {
      var cur: u64 := ddr3;
      var i := 0;
      ghost var chain := Chain(segs, toDevice, ddr3, descBase, 0);
      while i < sglNents
        invariant 0 <= i <= sglNents == |segs|
        invariant chain[i..] == Chain(segs[i..], toDevice, cur, descBase, i)
        invariant forall k | 0 <= k < i :: descRing[k] == chain[k]
        invariant forall k | sglNents <= k < descRing.Length :: descRing[k] == old(descRing[k])
      {
        ChainUnfold(segs, toDevice, cur, descBase, i);
        assert chain[i] == chain[i..][0] && chain[i + 1..] == chain[i..][1..];
        descRing[i] := FillDescriptor(segs[i], i, toDevice, cur);
        cur := Add64(cur, segs[i].len);
        i := i + 1;
      }
    }

    /** The synchronous wait: at most POLL_LIMIT reads of the status register. */
    method WaitIdle(busyPolls: nat) returns (timeout: nat)
      ensures timeout == 0 <==> busyPolls >= 10_000_000
    {
      timeout := POLL_LIMIT;
      var polls := 0;
      while polls < busyPolls
        invariant polls <= busyPolls && timeout == POLL_LIMIT - polls > 0
      {
        polls := polls + 1;
        timeout := timeout - 1;
        if timeout == 0 { break; }
      }
    }

    /** The hardware between Run and Stop: it walks the chain from the ring base. After a time-out
        nothing is said about memory. */
    method RunEngine(segs: seq<Segment>, toDevice: bool, ddr3: u64, bus: u64 -> Loc, busyPolls: nat) returns (timeout: nat)
      requires 0 < |segs| <= descRing.Length && descBase + |segs| * DESC_SIZE < TWO64
      requires descRing[..|segs|] == Chain(segs, toDevice, ddr3, descBase, 0)
      requires |SegmentBytes(segs, bus)| < TWO32 && Distinct(SegmentBytes(segs, bus))
      modifies this`mem
      ensures timeout == 0 <==> busyPolls >= POLL_LIMIT
      ensures timeout != 0 ==> Copied(toDevice, old(mem), mem, SegmentBytes(segs, bus), ddr3)
    {
      timeout := WaitIdle(busyPolls);
      if timeout == 0 {
        mem := *;
      } else {
        var w := Engine(descRing[..], descBase, descBase, Executes(toDevice, bus), mem, descRing.Length);
        assert descRing[..][0..0 + |segs|] == descRing[..|segs|];
        ghost var w' := WalkCopies(descRing[..], descBase, segs, toDevice, ddr3, bus, mem, 0, descRing.Length);
        mem := w.mem;
      }
    }

    /** fpgagpu_ioctl, case DMA_TRANSFER. */
    method DmaTransfer(r: Request, a: Answers) returns (st: Status)
      requires Valid() && a.Honest(r)
      modifies this, descRing, pinnedPages
      ensures Valid()
      ensures st == Outcome(r, a)
      ensures st == EINVAL <==>
              r.size == 0 || r.size > 0x200_0000 || r.vaddr == 0 || r.vaddr + r.size > 0x1_0000_0000_0000_0000
              || (r.vaddr % 4096 + r.size + 4095) / 4096 > 8192 || r.direction > 1
      ensures (st != EINVAL && a.gup == (r.vaddr % 4096 + r.size + 4095) / 4096 && a.sglAllocated && |a.segs| > 0
               && a.busyPolls < 10_000_000) ==> st == Success
      ensures st == Success ==> Copied(r.direction == 0, old(mem), mem, HostRange(r, a), r.ddr3)
      ensures !a.Starts(r) ==> mem == old(mem)
      ensures pins == old(pins) && mappings == old(mappings)
      ensures dirty == old(dirty) + if a.Starts(r) && r.direction == 1 then PageSet(a.frames) else {}
      ensures numPinned == if !r.Accepted() then old(numPinned) else if a.gup < 0 then a.gup else 0
    {
      OutcomeInNumbers(r, a);
      if r.size == 0 || r.vaddr == 0 { return EINVAL; }
      if r.size > MAX_TRANSFER { return EINVAL; }
      if r.vaddr > ULONG_MAX - (r.size - 1) { return EINVAL; }
      var pageOffset := r.vaddr % PAGE_SIZE;
      var numPages := PageCount(pageOffset, r.size);
      if numPages > MAX_PAGES { return EINVAL; }
      if r.direction != DMA_TO_DEVICE && r.direction != DMA_FROM_DEVICE { return EINVAL; }

      GetUserPages(a);
      if numPinned < 0 { return PinError(numPinned); }
      if numPinned != numPages {
        ReleasePages(false, old(pins));
        return EFAULT;
      }
      assert a.frames[..a.gup] == a.frames;

      st := MapAndRun(r, a, old(pins));
    }

    /** The rest of the request, once all pages are pinned: map, build the chain, run, tear down. */
    method MapAndRun(r: Request, a: Answers, ghost before: multiset<nat>) returns (st: Status)
      requires Valid() && a.Honest(r) && r.Accepted() && a.gup == r.Pages() == numPinned
      requires pinnedPages[..numPinned] == a.frames && pins == before + multiset(a.frames)
      modifies this, descRing
      ensures Valid() && st == Outcome(r, a) && numPinned == 0 && pins == before && mappings == old(mappings)
      ensures st == Success ==> Copied(r.direction == DMA_TO_DEVICE, old(mem), mem, HostRange(r, a), r.ddr3)
      ensures !a.Starts(r) ==> mem == old(mem)
      ensures dirty == old(dirty) + if a.Starts(r) && r.direction == DMA_FROM_DEVICE then PageSet(a.frames) else {}
    {
      var pageOffset := r.vaddr % PAGE_SIZE;
      if !a.sglAllocated {
        ReleasePages(false, before);
        return ENOMEM;
      }
      var table := new SgEntry[numPinned](_ => SgEntry(0, 0, 0));
      sgl := table;
      FillSgl(table, pageOffset, r.size);

      sglNents := |a.segs|;
      if sglNents == 0 {
        sgl := null;
        ReleasePages(false, before);
        return ENOMEM;
      }
      mappings := mappings + 1;
      st := RunMapped(r, a, before);
    }

    /** The mapped request: build the chain, run it, tear down. */
    method RunMapped(r: Request, a: Answers, ghost before: multiset<nat>) returns (st: Status)
      requires descRing.Length == MAX_PAGES && pinnedPages.Length == MAX_PAGES && descBase + MAX_PAGES * DESC_SIZE < TWO64
      requires a.Honest(r) && a.Starts(r) && sgl != null && sglNents == |a.segs| && mappings > 0 && numPinned == a.gup
      requires pinnedPages[..numPinned] == a.frames && pins == before + multiset(a.frames)
      modifies this, descRing
      ensures Valid() && st == Outcome(r, a) && numPinned == 0 && pins == before && mappings == old(mappings) - 1
      ensures st == Success ==> Copied(r.direction == DMA_TO_DEVICE, old(mem), mem, HostRange(r, a), r.ddr3)
      ensures dirty == old(dirty) + if r.direction == DMA_FROM_DEVICE then PageSet(a.frames) else {}
    {
      var toDevice := r.direction == DMA_TO_DEVICE;
      MappedRange(r, a);
      BuildChain(a.segs, toDevice, r.ddr3);
      var timeout := RunEngine(a.segs, toDevice, r.ddr3, a.bus, a.busyPolls);

      mappings := mappings - 1;
      sgl := null;
      ReleasePages(r.direction == DMA_FROM_DEVICE, before);
      if timeout == 0 { return ETIMEDOUT; }
      return Success;
    }

    /** One request of a sequence: what it means for resources, and its effect on memory in one word. */
    method Serve(r: Request, a: Answers) returns (st: Status)
      requires Valid() && a.Honest(r)
      modifies this, descRing, pinnedPages
      ensures Valid() && st == Outcome(r, a) && MemoryEffect(r, a, old(mem), mem)
      ensures pins == old(pins) && mappings == old(mappings)
      ensures dirty == old(dirty) + if a.Starts(r) && r.direction == DMA_FROM_DEVICE then PageSet(a.frames) else {}
    {
      st := DmaTransfer(r, a);
    }

    /** Requests one after the other, whatever goes wrong in each: references and mappings are balanced,
        the table is gone, exactly the pages the device wrote to have been marked dirty, and memory went
        through `mems`, one copy for every success and no change for a request that never started. */
    method DmaRun(rs: seq<(Request, Answers)>) returns (sts: seq<Status>, ghost mems: seq<Memory>)
      requires Valid() && forall i | 0 <= i < |rs| :: rs[i].1.Honest(rs[i].0)
      modifies this, descRing, pinnedPages
      ensures Valid() && pins == old(pins) && mappings == old(mappings)
      ensures dirty == old(dirty) + WrittenPages(rs)
      ensures Served(rs, sts, mems) && mems[0] == old(mem) && mems[|rs|] == mem
    {
      sts, mems := [], [mem];
      for i := 0 to |rs|
        invariant Valid() && pins == old(pins) && mappings == old(mappings)
        invariant dirty == old(dirty) + WrittenPages(rs[..i])
        invariant Served(rs[..i], sts, mems) && mems[0] == old(mem) && mems[i] == mem
      {
        var st := Serve(rs[i].0, rs[i].1);
        ServedStep(rs, i, sts, mems, st, mem);
        sts, mems := sts + [st], mems + [mem];
        WrittenPagesStep(rs, i);
      }
      assert rs[..|rs|] == rs;
    }
  }

  function WrittenPages(rs: seq<(Request, Answers)>): set<nat> {
    if rs == [] then {}
    else
      var (r, a) := rs[|rs| - 1];
      WrittenPages(rs[..|rs| - 1]) + if a.Starts(r) && r.direction == DMA_FROM_DEVICE then PageSet(a.frames) else {}
  }

  lemma WrittenPagesStep(rs: seq<(Request, Answers)>, i: nat)
    requires i < |rs|
    ensures var (r, a) := rs[i];
            WrittenPages(rs[..i + 1])
            == WrittenPages(rs[..i]) + if a.Starts(r) && r.direction == DMA_FROM_DEVICE then PageSet(a.frames) else {}
  {
    assert rs[..i + 1][..i] == rs[..i];
  }
}
