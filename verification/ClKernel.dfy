/** Kernel arguments: the table clSetKernelArg fills in, and the page a launch makes of it. */
module ClKernel {
  import opened Words
  import opened Vram
  import opened ClStore
  import opened ClMem

  const MAX_ARGS := 32
  const KERNARG_WORDS := 1024
  const SIZEOF_CL_MEM: u64 := 8

  /** fpgagpu_kernel_arg_t */
  datatype Arg = Arg(isSet: bool, isMem: bool, size: u64, scalar: u32, mem: nat)

  /** A pointer argument of clSetKernelArg: null, or pointing to readable bytes. */
  datatype ArgValue = Null | PointsTo(bytes: seq<u8>)

  /** One call of clSetKernelArg, and the buffers alive when it is made. */
  datatype ArgCall = ArgCall(index: u32, size: u64, value: ArgValue, live: map<nat, Buffer>) {
    predicate Accepted() {
      index < MAX_ARGS && value.PointsTo?
    }

    /** What the call reads exists: the bytes of the value, and behind eight bytes a live buffer. The C code
        follows those eight bytes as a pointer, so it crashes on null and on anything else that is not a
        handle. */
    predicate Defined() {
      Accepted() ==>
        && (size <= 4 || size == SIZEOF_CL_MEM ==> |value.bytes| >= size)
        && (size == SIZEOF_CL_MEM ==> Handle() in live)
    }

    function Handle(): nat
      requires value.PointsTo? && |value.bytes| >= 8
    {
      LittleEndian(value.bytes[..8])
    }
  }

  /** The number a little-endian machine reads from `bs`. */
  function LittleEndian(bs: seq<u8>): nat {
    if bs == [] then 0 else bs[0] + 256 * LittleEndian(bs[1..])
  }

  lemma LittleEndianFits(bs: seq<u8>)
    requires |bs| <= 4
    ensures LittleEndian(bs) < TWO32
  {
    if |bs| >= 1 {
      if |bs| >= 2 {
        if |bs| >= 3 {
          if |bs| == 4 {
            assert LittleEndian(bs[1..][1..][1..]) < 256;
          }
          assert LittleEndian(bs[1..][1..]) < 0x1_0000;
        }
        assert LittleEndian(bs[1..]) < 0x100_0000;
      }
    }
  }

  /** The 32 bits a launch passes for an accepted argument. */
  function ValueOf(c: ArgCall): (v: u32)
    requires c.Accepted() && c.Defined()
  {
    if c.size == SIZEOF_CL_MEM then c.live[c.Handle()].ddr3 % TWO32
    else if c.size <= 4 then
      LittleEndianFits(c.value.bytes[..c.size]);
      LittleEndian(c.value.bytes[..c.size])
    else 0
  }

  /** A buffer argument is passed as the buffer's whole device address, which lies in the user part of the
      memory. */
  lemma BufferPasses(c: ArgCall, heap: u64)
    requires c.Accepted() && c.Defined() && c.size == 8 && Laid(heap, c.live)
    ensures ValueOf(c) == c.live[c.Handle()].ddr3 >= VRAM_USER_BASE
  {
    var b := c.live[c.Handle()];
    assert b.ddr3 + b.size <= heap;
  }

  /** A scalar of any other size is passed as it is exactly when it has at most four bytes or is zero. */
  lemma ScalarPassesIff(c: ArgCall)
    requires c.Accepted() && c.Defined() && c.size != 8 && c.size <= |c.value.bytes|
    ensures ValueOf(c) == LittleEndian(c.value.bytes[..c.size]) <==> c.size <= 4 || LittleEndian(c.value.bytes[..c.size]) == 0
  {}

  function Zeros(n: nat): seq<u8> {
    if n == 0 then [] else [0] + Zeros(n - 1)
  }

  lemma {:induction false} ZerosAreZero(n: nat)
    ensures |Zeros(n)| == n && LittleEndian(Zeros(n)) == 0
  {
    if n > 0 {
      ZerosAreZero(n - 1);
      assert Zeros(n)[1..] == Zeros(n - 1);
    }
  }

  lemma SmallNumber(x: u8, n: nat)
    ensures |[x] + Zeros(n)| == n + 1 && LittleEndian([x] + Zeros(n)) == x
  {
    ZerosAreZero(n);
    assert ([x] + Zeros(n))[1..] == Zeros(n);
  }

  /** One scalar that is not: the number 1 in sixteen bytes reaches the kernel as 0. */
  lemma WideScalarIsLost()
    ensures var c := ArgCall(0, 16, PointsTo([1] + Zeros(15)), map[]);
            c.Accepted() && c.Defined() && ValueOf(c) == 0 && |c.value.bytes| == 16 && LittleEndian(c.value.bytes[..16]) == 1
  {
    SmallNumber(1, 15);
    assert ([1] + Zeros(15))[..16] == [1] + Zeros(15);
  }

  /** And the number 16 in eight bytes, when 16 happens to be a handle, reaches it as that buffer's address. */
  lemma EightByteScalarIsHandle()
    ensures var c := ArgCall(0, 8, PointsTo([16] + Zeros(7)), map[16 := Buffer(4, 0x1_0000, 1)]);
            c.Accepted() && c.Defined() && c.Handle() == 16 && ValueOf(c) == 0x1_0000
  {
    SmallNumber(16, 7);
    assert ([16] + Zeros(7))[..8] == [16] + Zeros(7);
  }

  /** A null handle, like any number that is no live handle, is not defined behaviour. */
  lemma NullHandleUndefined(index: u32, live: map<nat, Buffer>)
    requires index < MAX_ARGS && 0 !in live
    ensures !ArgCall(index, 8, PointsTo(Zeros(8)), live).Defined()
  {
    ZerosAreZero(8);
    assert Zeros(8)[..8] == Zeros(8);
  }

  /** The value the last accepted call gave each argument. */
  function Given(calls: seq<ArgCall>): map<nat, u32>
    requires forall c | c in calls :: c.Defined()
  {
    if calls == [] then map[]
    else
      var c := calls[|calls| - 1];
      var before := Given(calls[..|calls| - 1]);
      if c.Accepted() then before[c.index as nat := ValueOf(c)] else before
  }

  /** `k` is the last accepted call for argument `i`. */
  predicate LastFor(calls: seq<ArgCall>, k: nat, i: nat) {
    && k < |calls| && calls[k].Accepted() && calls[k].index == i
    && (forall o | k < o < |calls| :: !(calls[o].Accepted() && calls[o].index == i))
  }

  lemma {:induction false} GivenIsLast(calls: seq<ArgCall>, k: nat, i: nat)
    requires (forall c | c in calls :: c.Defined()) && LastFor(calls, k, i)
    ensures i in Given(calls) && Given(calls)[i] == ValueOf(calls[k])
    decreases |calls|
  {
    var n := |calls| - 1;
    if k < n {
      assert !(calls[n].Accepted() && calls[n].index == i);
      GivenIsLast(calls[..n], k, i);
    }
  }

  predicate WasGiven(calls: seq<ArgCall>, i: nat) {
    exists k | 0 <= k < |calls| :: calls[k].Accepted() && calls[k].index == i
  }

  lemma {:induction false} GivenDomain(calls: seq<ArgCall>, i: nat)
    requires forall c | c in calls :: c.Defined()
    ensures i in Given(calls) <==> WasGiven(calls, i)
    decreases |calls|
  {
    if calls != [] {
      var n := |calls| - 1;
      GivenDomain(calls[..n], i);
      assert WasGiven(calls, i) <==> WasGiven(calls[..n], i) || (calls[n].Accepted() && calls[n].index == i);
    }
  }

  /** One more than the highest argument set. */
  ghost predicate IsArgCount(table: map<nat, u32>, n: nat) {
    (forall i | i in table :: i < n) && (n > 0 ==> n - 1 in table)
  }

  lemma CountStep(table: map<nat, u32>, n: nat, i: nat, v: u32)
    requires IsArgCount(table, n)
    ensures IsArgCount(table[i := v], if i >= n then i + 1 else n)
  {}

  /** Every argument below the highest one set is set. */
  ghost predicate Complete(table: map<nat, u32>) {
    forall i: nat, j: nat | i < j && j in table :: i in table
  }

  /** The words of the argument page: each argument twice, once per lane, and zeros. */
  function Page(table: map<nat, u32>): (r: seq<u32>)
    ensures |r| == 1024
    ensures forall i | i in table && i < 512 :: r[2 * i] == r[2 * i + 1] == table[i]
    ensures forall w | 0 <= w < 1024 && w / 2 !in table :: r[w] == 0
  {
    seq<u32>(KERNARG_WORDS, w requires 0 <= w < KERNARG_WORDS => if w / 2 in table then table[w / 2] else 0)
  }

  /** Argument `k` is set, and its value is in the words of both lanes. */
  predicate InLanes(words: seq<u32>, table: map<nat, u32>, k: nat) {
    k in table && 2 * k + 1 < |words| && words[2 * k] == words[2 * k + 1] == table[k]
  }

  /** What the marshalling loop leaves is the page of the table. */
  lemma PageFilled(words: seq<u32>, table: map<nat, u32>, n: nat)
    requires |words| == KERNARG_WORDS && n <= MAX_ARGS && IsArgCount(table, n)
    requires forall k: nat | k < n :: InLanes(words, table, k)
    requires forall w | 2 * n <= w < KERNARG_WORDS :: words[w] == 0
    ensures words == Page(table)
  {
    forall w | 0 <= w < KERNARG_WORDS
      ensures words[w] == Page(table)[w]
    {
      var k: nat := w / 2;
      assert w == 2 * k || w == 2 * k + 1;
      assert k < n ==> InLanes(words, table, k);
    }
  }

  /** struct _cl_kernel */
  class Kernel {
    const args: array<Arg>
    var numArgs: nat

    ghost predicate Valid()
      reads this, args
    {
      args.Length == MAX_ARGS && IsArgCount(Table(), numArgs)
    }

    /** The arguments set so far, by index. */
    ghost function Table(): map<nat, u32>
      reads args
    {
      map i: nat | i < args.Length && args[i].isSet :: args[i].scalar
    }

    /** clCreateKernel, once its checks have passed */
    constructor ()
      ensures Valid() && fresh(args) && Table() == map[]
    {
      args := new Arg[MAX_ARGS](_ => Arg(false, false, 0, 0, 0));
      numArgs := 0;
    }

    /** clSetKernelArg */
    method SetArg(c: ArgCall) returns (st: ClStatus)
      requires Valid() && c.Defined()
      modifies this, args
      ensures Valid()
      ensures st == if c.index >= 32 then CL_INVALID_ARG_INDEX
                    else if c.value.Null? then CL_INVALID_ARG_VALUE
                    else CL_SUCCESS
      ensures Table() == if c.Accepted() then old(Table())[c.index as nat := ValueOf(c)] else old(Table())
    {
      if c.index >= MAX_ARGS { return CL_INVALID_ARG_INDEX; }
      if c.value.Null? { return CL_INVALID_ARG_VALUE; }
      if c.size == SIZEOF_CL_MEM {
        var mem := LittleEndian(c.value.bytes[..8]);
        args[c.index] := Arg(true, true, c.size, c.live[mem].ddr3 % TWO32, mem);
      } else {
        var val: u32 := 0;
        if c.size <= 4 {
          LittleEndianFits(c.value.bytes[..c.size]);
          val := LittleEndian(c.value.bytes[..c.size]);
        }
        args[c.index] := Arg(true, false, c.size, val, 0);
      }
      assert Table() == old(Table())[c.index as nat := ValueOf(c)];
      CountStep(old(Table()), numArgs, c.index, ValueOf(c));
      if c.index >= numArgs {
        numArgs := c.index + 1;
      }
      return CL_SUCCESS;
    }

    /** The same for the buffers a runtime holds: a buffer argument becomes that buffer's device address. */
    method SetArgIn(rt: Runtime, index: u32, size: u64, value: ArgValue) returns (st: ClStatus)
      requires Valid() && rt.Valid() && ArgCall(index, size, value, rt.buffers).Defined()
      modifies this, args
      ensures Valid()
      ensures st == if index >= 32 then CL_INVALID_ARG_INDEX else if value.Null? then CL_INVALID_ARG_VALUE else CL_SUCCESS
      ensures var c := ArgCall(index, size, value, rt.buffers);
              Table() == if c.Accepted() then old(Table())[index as nat := ValueOf(c)] else old(Table())
      ensures st == CL_SUCCESS && size == 8 ==>
                Table()[index] == rt.buffers[ArgCall(index, size, value, rt.buffers).Handle()].ddr3
    {
      var c := ArgCall(index, size, value, rt.buffers);
      st := SetArg(c);
      if st == CL_SUCCESS && size == SIZEOF_CL_MEM { BufferPasses(c, rt.vram.Heap()); }
    }

    /** Any sequence of calls leaves the last value given to each argument. */
    method SetArgs(calls: seq<ArgCall>)
      requires Valid() && Table() == map[] && forall c | c in calls :: c.Defined()
      modifies this, args
      ensures Valid() && Table() == Given(calls)
    {
      for k := 0 to |calls|
        invariant Valid() && Table() == Given(calls[..k])
      {
        var st := SetArg(calls[k]);
        assert calls[..k + 1][..k] == calls[..k];
      }
      assert calls[..|calls|] == calls;
    }

    /** The marshalling loop of a launch, on the freshly allocated page. */
    method Marshal(buf: array<u32>) returns (ok: bool)
      requires Valid() && buf.Length == KERNARG_WORDS
      modifies buf
      ensures ok <==> Complete(Table())
      ensures ok ==> buf[..] == Page(Table())
    {
      forall w | 0 <= w < buf.Length { buf[w] := 0; }
      for i := 0 to numArgs
        invariant numArgs <= MAX_ARGS
        invariant forall k: nat | k < i :: k in Table() && buf[2 * k] == buf[2 * k + 1] == Table()[k]
        invariant forall w | 2 * i <= w < buf.Length :: buf[w] == 0
      {
        if !args[i].isSet {
          assert i !in Table() && numArgs - 1 in Table();
          return false;
        }
        buf[i * 2 + 0] := args[i].scalar;
        buf[i * 2 + 1] := args[i].scalar;
      }
      forall k: nat | k < numArgs
        ensures InLanes(buf[..], Table(), k)
      {}
      PageFilled(buf[..], Table(), numArgs);
      return true;
    }
  }

  /** No index below a given one was left out. */
  ghost predicate NoGaps(calls: seq<ArgCall>) {
    forall i: nat, j: nat | i < j && WasGiven(calls, j) :: WasGiven(calls, i)
  }

  /** Main result: after any sequence of calls a launch can marshal the arguments exactly when every index
      below the highest one given was given. */
  lemma CompleteIffNoGaps(calls: seq<ArgCall>)
    requires forall c | c in calls :: c.Defined()
    ensures Complete(Given(calls)) <==> NoGaps(calls)
  {
    forall i: nat
      ensures i in Given(calls) <==> WasGiven(calls, i)
    {
      GivenDomain(calls, i);
    }
  }

  /** And then words 2i and 2i + 1 of the page hold the last value given for argument i, while the words of
      arguments never given are zero. */
  lemma PageHoldsLastValues(calls: seq<ArgCall>, i: nat, k: nat)
    requires (forall c | c in calls :: c.Defined()) && i < KERNARG_WORDS / 2
    ensures LastFor(calls, k, i) ==>
              Page(Given(calls))[2 * i] == Page(Given(calls))[2 * i + 1] == ValueOf(calls[k])
    ensures !WasGiven(calls, i) ==> Page(Given(calls))[2 * i] == Page(Given(calls))[2 * i + 1] == 0
  {
    GivenDomain(calls, i);
    if LastFor(calls, k, i) {
      GivenIsLast(calls, k, i);
    }
    assert (2 * i) / 2 == (2 * i + 1) / 2 == i;
  }
}
