/** The command ring: 512 slots, a head that the firmware advances and a tail that the driver publishes.
    Unbounded histories of what was submitted and consumed explain the two wrapped counters. */
module RingCore {
  import opened Words

  const QUEUE_SIZE := 512
  const MAGIC_OCL: u32 := 0x4F43_4C31
  const OPCODE_LAUNCH_KERNEL: u32 := 0x01
  const OPCODE_LOAD_KERNEL: u32 := 0x10

  /** struct fpgagpu_dispatch_packet; the entry point and the reserved words are always zero. */
  datatype Packet = Packet(magic: u32, opcode: u32, gridX: u32, gridY: u32, blockX: u32, blockY: u32,
                           src: u64, dst: u64, numElements: u32, taskId: u32)

  function Succ(i: nat): nat {
    (i + 1) % QUEUE_SIZE
  }

  /** (tail - head) modulo the queue size. */
  function Distance(head: nat, tail: nat): (d: nat)
    requires head < QUEUE_SIZE && tail < QUEUE_SIZE
    ensures d < QUEUE_SIZE
  {
    if head <= tail then tail - head else tail + QUEUE_SIZE - head
  }

  ghost predicate RingInv(slots: seq<Packet>, head: nat, tail: nat, submitted: seq<Packet>, consumed: seq<Packet>) {
    && |slots| == QUEUE_SIZE
    && head == |consumed| % QUEUE_SIZE && tail == |submitted| % QUEUE_SIZE
    && |consumed| <= |submitted| < |consumed| + QUEUE_SIZE
    && consumed == submitted[..|consumed|]
    && (forall i | |consumed| <= i < |submitted| :: slots[i % QUEUE_SIZE] == submitted[i])
  }

  /** Two counts less than a lap apart that look the same are the same. */
  lemma SameLap(a: nat, b: nat)
    requires a <= b < a + QUEUE_SIZE && a % QUEUE_SIZE == b % QUEUE_SIZE
    ensures a == b
  {}

  lemma DifferentLap(a: nat, b: nat)
    ensures a < b < a + QUEUE_SIZE ==> a % QUEUE_SIZE != b % QUEUE_SIZE
  {}

  /** The wrapped counters determine how many packets are in flight. */
  lemma InFlight(slots: seq<Packet>, head: nat, tail: nat, submitted: seq<Packet>, consumed: seq<Packet>)
    requires RingInv(slots, head, tail, submitted, consumed)
    ensures Distance(head, tail) == |submitted| - |consumed| <= 511
    ensures head == tail <==> consumed == submitted
  {
    if head == tail { SameLap(|consumed|, |submitted|); }
  }

  lemma WrapsAlike(a: nat, k: nat)
    ensures (a + k) % QUEUE_SIZE == (a % QUEUE_SIZE + k) % QUEUE_SIZE
  {}

  /** Slots head to tail, around the end of the array, are exactly the unconsumed packets in order. */
  lemma SlotsAreUnconsumed(slots: seq<Packet>, head: nat, tail: nat, submitted: seq<Packet>, consumed: seq<Packet>, k: nat)
    requires RingInv(slots, head, tail, submitted, consumed) && k < Distance(head, tail)
    ensures |consumed| + k < |submitted| && slots[(head + k) % QUEUE_SIZE] == submitted[|consumed| + k]
  {
    InFlight(slots, head, tail, submitted, consumed);
    WrapsAlike(|consumed|, k);
  }

  /** The full test on a head read `seen` consumptions into the run: it fires exactly when 511 packets
      were in flight at that moment, and when it does not fire there is still room now. */
  lemma FullTest(submitted: nat, consumed: nat, seen: nat)
    requires seen <= consumed <= submitted < seen + QUEUE_SIZE
    ensures Succ(submitted % QUEUE_SIZE) == seen % QUEUE_SIZE <==> submitted - seen == 511
    ensures Succ(submitted % QUEUE_SIZE) != seen % QUEUE_SIZE ==> submitted - consumed <= 510
  {
    assert Succ(submitted % QUEUE_SIZE) == (submitted + 1) % QUEUE_SIZE;
    DifferentLap(seen, submitted + 1);
  }

  /** While there is room, anything may be stored in slot `tail`. */
  lemma StoreKeeps(slots: seq<Packet>, head: nat, tail: nat, submitted: seq<Packet>, consumed: seq<Packet>, p: Packet)
    requires RingInv(slots, head, tail, submitted, consumed) && |submitted| - |consumed| <= 510
    ensures RingInv(slots[tail := p], head, tail, submitted, consumed)
  {
    forall i | |consumed| <= i < |submitted|
      ensures slots[tail := p][i % QUEUE_SIZE] == submitted[i]
    {
      DifferentLap(i, |submitted|);
    }
  }

  lemma PublishKeeps(slots: seq<Packet>, head: nat, tail: nat, submitted: seq<Packet>, consumed: seq<Packet>)
    requires RingInv(slots, head, tail, submitted, consumed) && |submitted| - |consumed| <= 510
    ensures RingInv(slots, head, Succ(tail), submitted + [slots[tail]], consumed)
  {}

  /** The firmware finds the oldest unconsumed packet in slot `head`. */
  lemma ConsumeKeeps(slots: seq<Packet>, head: nat, tail: nat, submitted: seq<Packet>, consumed: seq<Packet>)
    requires RingInv(slots, head, tail, submitted, consumed) && head != tail
    ensures |consumed| < |submitted| && slots[head] == submitted[|consumed|]
    ensures RingInv(slots, Succ(head), tail, submitted, consumed + [submitted[|consumed|]])
  {
    InFlight(slots, head, tail, submitted, consumed);
    assert slots[|consumed| % QUEUE_SIZE] == submitted[|consumed|];
  }

  /** A waiter that sees `head` at its target knows that everything published before the target was taken
      has been consumed, however often the counters have wrapped since. */
  lemma WaitSound(slots: seq<Packet>, head: nat, tail: nat, submitted: seq<Packet>, consumed: seq<Packet>, n: nat)
    requires RingInv(slots, head, tail, submitted, consumed)
    requires n <= |submitted| && head == n % QUEUE_SIZE
    ensures n <= |consumed|
  {
    DifferentLap(|consumed|, n);
  }
}
