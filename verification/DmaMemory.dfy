/** Host memory, device memory, and what it means to have copied bytes between them. */
module DmaMemory {
  import opened Words

  const PAGE_SIZE := 4096

  /** A byte of host memory: a physical page and an offset in it. */
  datatype Loc = Loc(page: nat, off: nat)

  type HostMem = Loc -> u8
  type DevMem = u64 -> u8

  datatype Memory = Memory(host: HostMem, ddr3: DevMem)

  /** `n` consecutive 64-bit addresses. */
  function Range64(a: u64, n: u32): (r: seq<u64>)
    ensures |r| == n
  {
    seq(n, j requires 0 <= j < n => Add64(a, j))
  }

  function Load<L>(m: L -> u8, at: seq<L>): (vs: seq<u8>)
    ensures |vs| == |at|
  {
    seq(|at|, j requires 0 <= j < |at| => m(at[j]))
  }

  /** Stores byte after byte, in order. */
  function Store<L(==)>(m: L -> u8, at: seq<L>, vs: seq<u8>): L -> u8
    requires |at| == |vs|
    decreases |at|
  {
    if |at| == 0 then m
    else
      var n := |at| - 1;
      var before := Store(m, at[..n], vs[..n]);
      l => if l == at[n] then vs[n] else before(l)
  }

  ghost predicate Distinct<L>(s: seq<L>) {
    forall i, j | 0 <= i < j < |s| :: s[i] != s[j]
  }

  /** `m'` is `m` with `vs` at the locations `at` and not one other byte changed. */
  ghost predicate Written<L(!new)>(m: L -> u8, m': L -> u8, at: seq<L>, vs: seq<u8>)
    requires |at| == |vs|
  {
    && (forall j | 0 <= j < |at| :: m'(at[j]) == vs[j])
    && (forall l: L | l !in at :: m'(l) == m(l))
  }

  lemma {:induction false} StoreWrites<L(!new)>(m: L -> u8, at: seq<L>, vs: seq<u8>)
    requires |at| == |vs| && Distinct(at)
    ensures Written(m, Store(m, at, vs), at, vs)
    decreases |at|
  {
    if |at| > 0 {
      var n := |at| - 1;
      StoreWrites(m, at[..n], vs[..n]);
      var before := Store(m, at[..n], vs[..n]);
      forall j | 0 <= j < |at|
        ensures Store(m, at, vs)(at[j]) == vs[j]
      {
        if j < n {
          assert at[..n][j] == at[j] && vs[..n][j] == vs[j];
          assert before(at[..n][j]) == vs[..n][j];
        }
      }
      forall l: L | l !in at
        ensures Store(m, at, vs)(l) == m(l)
      {
        assert l !in at[..n] && l != at[n];
      }
    }
  }

  /** Two writes to disjoint places are one write. */
  lemma WrittenCompose<L(!new)>(m0: L -> u8, m1: L -> u8, m2: L -> u8, at: seq<L>, vs: seq<u8>, at': seq<L>, vs': seq<u8>)
    requires |at| == |vs| && |at'| == |vs'| && Distinct(at + at')
    requires Written(m0, m1, at, vs) && Written(m1, m2, at', vs')
    ensures Written(m0, m2, at + at', vs + vs')
  {
    var a, v := at + at', vs + vs';
    forall j | 0 <= j < |a|
      ensures m2(a[j]) == v[j]
    {
      if j < |at| {
        forall i | 0 <= i < |at'|
          ensures at'[i] != a[j]
        {
          assert a[|at| + i] == at'[i];
        }
        assert a[j] == at[j] && a[j] !in at';
      } else {
        assert a[j] == at'[j - |at|] && v[j] == vs'[j - |at|];
      }
    }
    forall l: L | l !in a
      ensures m2(l) == m0(l)
    {
      assert l !in at && l !in at';
    }
  }

  lemma RangeDistinct(a: u64, n: u32)
    ensures Distinct(Range64(a, n))
  {}

  lemma RangeSplit(a: u64, n: u32, k: u32)
    requires n + k < TWO32
    ensures Range64(a, n + k) == Range64(a, n) + Range64(Add64(a, n), k)
  {}

  /** The effect of one transfer: `|locs|` bytes between the host locations `locs` and the device
      range starting at `ddr3`, and nothing else. */
  ghost predicate Copied(toDevice: bool, before: Memory, after: Memory, locs: seq<Loc>, ddr3: u64)
    requires |locs| < TWO32
  {
    var range := Range64(ddr3, |locs|);
    if toDevice then
      after.host == before.host && Written(before.ddr3, after.ddr3, range, Load(before.host, locs))
    else
      after.ddr3 == before.ddr3 && Written(before.host, after.host, locs, Load(before.ddr3, range))
  }

  /** A transfer of one stretch followed by a transfer of the next is a transfer of both. */
  lemma CopiedCompose(toDevice: bool, m0: Memory, m1: Memory, m2: Memory, a: seq<Loc>, b: seq<Loc>, ddr3: u64)
    requires |a| + |b| < TWO32 && Distinct(a + b)
    requires Copied(toDevice, m0, m1, a, ddr3) && Copied(toDevice, m1, m2, b, Add64(ddr3, |a|))
    ensures Copied(toDevice, m0, m2, a + b, ddr3)
  {
    var n, k := |a|, |b|;
    var ra, rb := Range64(ddr3, n), Range64(Add64(ddr3, n), k);
    RangeSplit(ddr3, n, k);
    RangeDistinct(ddr3, n + k);
    if toDevice {
      assert Load(m0.host, a + b) == Load(m0.host, a) + Load(m0.host, b);
      WrittenCompose(m0.ddr3, m1.ddr3, m2.ddr3, ra, Load(m0.host, a), rb, Load(m0.host, b));
    } else {
      assert Load(m0.ddr3, ra + rb) == Load(m0.ddr3, ra) + Load(m0.ddr3, rb);
      WrittenCompose(m0.host, m1.host, m2.host, a, Load(m0.ddr3, ra), b, Load(m0.ddr3, rb));
    }
  }
}
