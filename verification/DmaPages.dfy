/** Splitting an unaligned user range into page pieces, and what the IOMMU mapping may do to them. */
module DmaPages {
  import opened Words
  import opened DmaMemory

  const MAX_PAGES := 8192

  /** One scatter-gather entry: `length` bytes of `page` from `offset` on. */
  datatype SgEntry = SgEntry(page: nat, length: nat, offset: nat)

  /** One mapped segment: `len` bytes from bus address `addr` on. */
  datatype Segment = Segment(addr: u64, len: u32)

  /** DIV_ROUND_UP(offset + size, PAGE_SIZE) */
  function PageCount(offset: nat, size: nat): nat {
    (offset + size + PAGE_SIZE - 1) / PAGE_SIZE
  }

  /** The pieces the loop fills in, `offset` being that of the first page only. */
  function Pieces(pages: seq<nat>, offset: nat, remaining: nat): seq<SgEntry>
    requires offset <= PAGE_SIZE
  {
    if pages == [] then []
    else
      var length := Min(remaining, PAGE_SIZE - offset);
      [SgEntry(pages[0], length, offset)] + Pieces(pages[1..], 0, remaining - length)
  }

  /** The host bytes of a list of pieces, in order. */
  function Bytes(sgl: seq<SgEntry>): seq<Loc> {
    if sgl == [] then [] else PageBytes(sgl[0].page, sgl[0].offset, sgl[0].length) + Bytes(sgl[1..])
  }

  function PageBytes(page: nat, offset: nat, length: nat): (r: seq<Loc>)
    ensures |r| == length
  {
    seq(length, j requires 0 <= j < length => Loc(page, offset + j))
  }

  /** The host bytes of the range itself, address by address. */
  function RangeBytes(pages: seq<nat>, offset: nat, size: nat): (r: seq<Loc>)
    requires |pages| == PageCount(offset, size)
    ensures |r| == size
  {
    seq(size, j requires 0 <= j < size => Loc(pages[(offset + j) / PAGE_SIZE], (offset + j) % PAGE_SIZE))
  }

  /** Main result on the split: the pieces are non-empty, stay inside their pages, only the first is
      offset, and together they are exactly the requested bytes in order. */
  lemma PiecesPartition(pages: seq<nat>, offset: nat, size: nat)
    requires offset < PAGE_SIZE && size > 0 && |pages| == PageCount(offset, size)
    ensures var p := Pieces(pages, offset, size);
            && |p| == |pages|
            && (forall i | 0 <= i < |p| :: p[i].page == pages[i] && p[i].length > 0 && p[i].offset + p[i].length <= PAGE_SIZE)
            && (forall i | 0 <= i < |p| :: p[i].offset == if i == 0 then offset else 0)
            && Bytes(p) == RangeBytes(pages, offset, size)
  {
    PiecesShape(pages, offset, size);
    PiecesBytes(pages, offset, size);
  }

  lemma {:induction false} PiecesShape(pages: seq<nat>, offset: nat, size: nat)
    requires offset < PAGE_SIZE && size > 0 && |pages| == PageCount(offset, size)
    ensures var p := Pieces(pages, offset, size);
            && |p| == |pages|
            && (forall i | 0 <= i < |p| :: p[i].page == pages[i] && p[i].length > 0 && p[i].offset + p[i].length <= PAGE_SIZE)
            && (forall i | 0 <= i < |p| :: p[i].offset == if i == 0 then offset else 0)
    decreases |pages|
  {
    if |pages| > 1 {
      LaterPages(offset, size);
      PiecesShape(pages[1..], 0, size - (PAGE_SIZE - offset));
    }
  }

  lemma LaterPages(offset: nat, size: nat)
    requires offset < PAGE_SIZE && PageCount(offset, size) > 1
    ensures PAGE_SIZE - offset < size && PageCount(0, size - (PAGE_SIZE - offset)) == PageCount(offset, size) - 1
  {}

  lemma {:induction false} PiecesBytes(pages: seq<nat>, offset: nat, size: nat)
    requires offset < PAGE_SIZE && size > 0 && |pages| == PageCount(offset, size)
    ensures Bytes(Pieces(pages, offset, size)) == RangeBytes(pages, offset, size)
    decreases |pages|
  {
    var p, length := Pieces(pages, offset, size), Min(size, PAGE_SIZE - offset);
    assert p[0] == SgEntry(pages[0], length, offset) && p[1..] == Pieces(pages[1..], 0, size - length);
    if |pages| == 1 {
      assert pages[1..] == [];
      assert Bytes(p) == PageBytes(pages[0], offset, size);
      assert RangeBytes(pages, offset, size) == PageBytes(pages[0], offset, size);
    } else {
      LaterPages(offset, size);
      PiecesBytes(pages[1..], 0, size - length);
      SplitRange(pages, offset, size);
    }
  }

  lemma SplitRange(pages: seq<nat>, offset: nat, size: nat)
    requires offset < PAGE_SIZE && |pages| == PageCount(offset, size) > 1
    ensures PAGE_SIZE - offset < size && |pages[1..]| == PageCount(0, size - (PAGE_SIZE - offset))
    ensures RangeBytes(pages, offset, size)
            == PageBytes(pages[0], offset, PAGE_SIZE - offset) + RangeBytes(pages[1..], 0, size - (PAGE_SIZE - offset))
  {
    LaterPages(offset, size);
    var length := PAGE_SIZE - offset;
    var whole, rest := RangeBytes(pages, offset, size), RangeBytes(pages[1..], 0, size - length);
    forall j | length <= j < size
      ensures whole[j] == rest[j - length]
    {
      assert (offset + j) / PAGE_SIZE == (j - length) / PAGE_SIZE + 1 && (offset + j) % PAGE_SIZE == (j - length) % PAGE_SIZE;
    }
  }

  /** Pinned pages being distinct, no byte occurs twice in the range. */
  lemma RangeBytesDistinct(pages: seq<nat>, offset: nat, size: nat)
    requires |pages| == PageCount(offset, size) && Distinct(pages)
    ensures Distinct(RangeBytes(pages, offset, size))
  {
    var r := RangeBytes(pages, offset, size);
    forall i, j | 0 <= i < j < |r|
      ensures r[i] != r[j]
    {
      var a, b := (offset + i) / PAGE_SIZE, (offset + j) / PAGE_SIZE;
      if a == b {
        assert (offset + i) % PAGE_SIZE != (offset + j) % PAGE_SIZE;
      } else {
        assert a < b;
      }
    }
  }

  /** The bytes a chain of segments denotes under the bus translation of the mapping. */
  function SegmentBytes(segs: seq<Segment>, bus: u64 -> Loc): seq<Loc> {
    if segs == [] then []
    else Translate(bus, Range64(segs[0].addr, segs[0].len)) + SegmentBytes(segs[1..], bus)
  }

  function Translate(bus: u64 -> Loc, at: seq<u64>): (r: seq<Loc>)
    ensures |r| == |at|
  {
    seq(|at|, j requires 0 <= j < |at| => bus(at[j]))
  }

  /** The contract of dma_map_sg: neighbouring pieces may be merged, no segment is empty,
      and the segments' bytes are the pieces' bytes in the same order. */
  predicate MapsTo(sgl: seq<SgEntry>, segs: seq<Segment>, bus: u64 -> Loc) {
    && 1 <= |segs| <= |sgl|
    && (forall i | 0 <= i < |segs| :: segs[i].len > 0)
    && SegmentBytes(segs, bus) == Bytes(sgl)
  }
}
