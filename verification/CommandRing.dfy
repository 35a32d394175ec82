/** The driver's SUBMIT_CMD, LOAD_KERNEL and DOORBELL requests, over the ring and the staging buffer in
    device memory. At every point of a request a list of outside events may happen: the firmware consumes
    a packet, or another process submits one; while the lock is held only the firmware can act. */
module CommandRing {
  import opened Words
  import opened RingCore

  const STAGING_WORDS := 4096
  const MAX_INSTRUCTIONS := 1024

  /** struct fpgagpu_launch_cmd */
  datatype Command = Command(opcode: u32, gridX: u32, gridY: u32, blockX: u32, blockY: u32,
                             src: u64, dst: u64, numElements: u32)

  datatype Code = Done | EINVAL | EFAULT | EBUSY | ETIMEDOUT | ERESTARTSYS

  datatype Event = Consume | Submit(c: Command)

  /** What happens outside at point 0, 1, ... of a request. */
  type Schedule = nat -> seq<Event>

  /** Nobody else loads kernels. */
  ghost predicate Serial(at: Schedule) {
    forall k: nat, i: nat | i < |at(k)| && at(k)[i].Submit? :: at(k)[i].c.opcode != OPCODE_LOAD_KERNEL
  }

  /** Nobody else submits anything. */
  ghost predicate Alone(at: Schedule) {
    forall k: nat :: NoSubmit(at(k))
  }

  predicate NoSubmit(events: seq<Event>) {
    forall i | 0 <= i < |events| :: events[i].Consume?
  }

  /** Nothing happens outside at the `n` points from `base` on. */
  ghost predicate Quiet(at: Schedule, base: nat, n: nat) {
    forall k: nat | base <= k < base + n :: at(k) == []
  }

  function OrElse(x: u32, default: u32): u32 {
    if x != 0 then x else default
  }

  /** The packet SUBMIT_CMD builds, with its defaults for missing dimensions. */
  function PacketFor(c: Command): Packet {
    Packet(MAGIC_OCL, c.opcode, OrElse(c.gridX, 32), OrElse(c.gridY, 1), OrElse(c.blockX, 32), OrElse(c.blockY, 1),
           c.src, c.dst, c.numElements, 0)
  }

  /** The packet LOAD_KERNEL builds. */
  function LoadPacket(size: u32, kernelId: u32): Packet {
    Packet(MAGIC_OCL, OPCODE_LOAD_KERNEL, 0, 0, 0, 0, 0, 0, size, kernelId)
  }

  /** The two kinds of packet, word by word. */
  lemma PacketsInNumbers(c: Command, size: u32, kernelId: u32)
    ensures var p := PacketFor(c);
            && p.magic == 0x4F43_4C31 && p.opcode == c.opcode
            && p.gridX == (if c.gridX == 0 then 32 else c.gridX) && p.gridY == (if c.gridY == 0 then 1 else c.gridY)
            && p.blockX == (if c.blockX == 0 then 32 else c.blockX) && p.blockY == (if c.blockY == 0 then 1 else c.blockY)
            && p.src == c.src && p.dst == c.dst && p.numElements == c.numElements && p.taskId == 0
    ensures var p := LoadPacket(size, kernelId);
            && p.magic == 0x4F43_4C31 && p.opcode == 0x10 && p.numElements == size && p.taskId == kernelId
            && p.gridX == p.gridY == p.blockX == p.blockY == 0 && p.src == p.dst == 0
  {}

  /** Everything submitted and consumed so far, and what the staging buffer held at each consumption. */
  datatype History = History(submitted: seq<Packet>, consumed: seq<Packet>, staged: seq<seq<u32>>) {
    ghost predicate Extends(h: History) {
      h.submitted <= submitted && h.consumed <= consumed && h.staged <= staged
    }

    /** The firmware has consumed one packet since `h` if there was one, and nothing else has happened. */
    ghost predicate OneConsumed(h: History) {
      submitted == h.submitted && |consumed| == Min(|h.consumed| + 1, |h.submitted|)
    }

    /** Everything submitted is consumed. */
    predicate Drained() {
      |submitted| == |consumed|
    }

    /** The staging buffer held `words` at every consumption since `h`. */
    ghost predicate StagedSince(h: History, words: seq<u32>) {
      forall i | |h.staged| <= i < |staged| :: staged[i] == words
    }

    /** Every packet submitted since `h` other than the one in `place` is something other than a load. */
    ghost predicate NoLoadSince(h: History, place: int) {
      forall i | |h.submitted| <= i < |submitted| && i != place :: submitted[i].opcode != OPCODE_LOAD_KERNEL
    }
  }

  class Ring {
    const slots: array<Packet>
    const staging: array<u32>
    var head: nat
    var tail: nat

    // What has happened on the ring since the driver was loaded; no register holds it.
    var history: History

    ghost predicate Valid()
      reads this, slots
    {
      && slots.Length == QUEUE_SIZE && staging.Length == STAGING_WORDS
      && RingInv(slots[..], head, tail, history.submitted, history.consumed)
      && |history.staged| == |history.consumed|
    }

    constructor ()
      ensures Valid() && fresh(slots) && fresh(staging) && history == History([], [], [])
    {
      slots := new Packet[QUEUE_SIZE](_ => Packet(0, 0, 0, 0, 0, 0, 0, 0, 0, 0));
      staging := new u32[STAGING_WORDS](_ => 0);
      head, tail, history := 0, 0, History([], [], []);
    }

    /** The firmware consumes the oldest packet, if there is one. */
    method FirmwareStep()
      requires Valid()
      modifies this
      ensures Valid() && tail == old(tail) && history.Extends(old(history)) && history.submitted == old(history.submitted)
      ensures history.StagedSince(old(history), staging[..]) && history.OneConsumed(old(history))
    {
      InFlight(slots[..], head, tail, history.submitted, history.consumed);
      if head != tail {
        ConsumeKeeps(slots[..], head, tail, history.submitted, history.consumed);
        history := history.(consumed := history.consumed + [slots[head]], staged := history.staged + [staging[..]]);
        head := Succ(head);
      }
    }

    /** Another process submits a command, unless the ring is full. */
    method OtherSubmit(c: Command)
      requires Valid()
      modifies this, slots
      ensures Valid() && history.Extends(old(history)) && history.staged == old(history.staged)
      ensures c.opcode != OPCODE_LOAD_KERNEL ==> history.NoLoadSince(old(history), -1)
    {
      if Succ(tail) != head {
        FullTest(|history.submitted|, |history.consumed|, |history.consumed|);
        StoreKeeps(slots[..], head, tail, history.submitted, history.consumed, PacketFor(c));
        PublishKeeps(slots[..][tail := PacketFor(c)], head, tail, history.submitted, history.consumed);
        slots[tail] := PacketFor(c);
        tail := Succ(tail);
        history := history.(submitted := history.submitted + [PacketFor(c)]);
      }
    }

    /** The events of one point of a request. */
    method Happen(events: seq<Event>, locked: bool)
      requires Valid()
      modifies this, slots
      ensures Valid() && history.Extends(old(history)) && history.StagedSince(old(history), staging[..])
      ensures locked ==> slots[..] == old(slots[..]) && tail == old(tail) && history.submitted == old(history.submitted)
      ensures (forall i | 0 <= i < |events| && events[i].Submit? :: events[i].c.opcode != OPCODE_LOAD_KERNEL) ==>
                history.NoLoadSince(old(history), -1)
      ensures events == [] ==> history == old(history)
      ensures events == [Consume] ==> history.OneConsumed(old(history))
      ensures NoSubmit(events) ==> history.submitted == old(history.submitted)
    {
      for k := 0 to |events|
        invariant Valid() && history.Extends(old(history)) && history.StagedSince(old(history), staging[..])
        invariant locked ==> slots[..] == old(slots[..]) && tail == old(tail) && history.submitted == old(history.submitted)
        invariant (forall i | 0 <= i < |events| && events[i].Submit? :: events[i].c.opcode != OPCODE_LOAD_KERNEL) ==>
                    history.NoLoadSince(old(history), -1)
        invariant k == 0 ==> history == old(history)
        invariant NoSubmit(events) ==> history.submitted == old(history.submitted)
        invariant k == 1 && events[0].Consume? ==> history.OneConsumed(old(history))
      {
        if events[k].Consume? {
          FirmwareStep();
        } else if !locked {
          OtherSubmit(events[k].c);
        }
      }
    }

    /** The packet copy and the tail write, once there is room; the firmware may run in between. */
    method Publish(p: Packet, t: nat, at: Schedule, base: nat)
      requires Valid() && t == tail && |history.submitted| - |history.consumed| <= 510
      modifies this, slots
      ensures Valid() && history.Extends(old(history)) && history.StagedSince(old(history), staging[..])
      ensures tail == Succ(t) && history.submitted == old(history.submitted) + [p]
      ensures Quiet(at, base, 2) ==> history.consumed == old(history.consumed)
    {
      Happen(at(base), true);
      StoreKeeps(slots[..], head, tail, history.submitted, history.consumed, p);
      slots[t] := p;
      assert slots[..][t] == p;
      Happen(at(base + 1), true);
      PublishKeeps(slots[..], head, tail, history.submitted, history.consumed);
      tail := Succ(t);
      history := history.(submitted := history.submitted + [p]);
    }

    /** Taking the lock and reading the head and then the tail; by then the firmware may have moved on
        from the head that was read. */
    method ReadCounters(at: Schedule, base: nat) returns (h: nat, t: nat, ghost seen: nat)
      requires Valid()
      modifies this, slots
      ensures Valid() && history.Extends(old(history)) && history.StagedSince(old(history), staging[..])
      ensures t == tail && h == seen % QUEUE_SIZE
      ensures |old(history.consumed)| <= seen <= |history.consumed| && |history.submitted| < seen + QUEUE_SIZE
      ensures Serial(at) ==> history.NoLoadSince(old(history), -1)
      ensures Quiet(at, base, 2) ==> history == old(history) && seen == |history.consumed|
      ensures NoSubmit(at(base)) ==> history.submitted == old(history.submitted)
    {
      Happen(at(base), false);
      h, seen := head, |history.consumed|;
      Happen(at(base + 1), true);
      t := tail;
    }

    /** The critical section both submitting requests share: it stores and publishes `p`, or finds the
        ring full. `place` and `seen` are what was submitted and consumed when the head was read; `place` is
        then the packet's position in the history. Events are taken from `at` from point `base` on. */
    method Post(p: Packet, at: Schedule, base: nat) returns (code: Code, target: nat, ghost place: nat, ghost seen: nat)
      requires Valid()
      modifies this, slots
      ensures Valid() && history.Extends(old(history)) && history.StagedSince(old(history), staging[..])
      ensures |old(history.submitted)| <= place <= |history.submitted| && |old(history.consumed)| <= seen <= |history.consumed|
      ensures code == if place - seen == 511 then EBUSY else Done
      ensures code == Done ==> place < |history.submitted| && history.submitted[place] == p && target == (place + 1) % QUEUE_SIZE
      ensures code == Done && Serial(at) ==> history.NoLoadSince(old(history), place)
      ensures NoSubmit(at(base)) ==> history.submitted == old(history.submitted) + if code == Done then [p] else []
      ensures Quiet(at, base, 4) ==> seen == |old(history.consumed)| && history.consumed == old(history.consumed)
    {
      var h, t;
      h, t, seen := ReadCounters(at, base);
      place := |history.submitted|;
      FullTest(|history.submitted|, |history.consumed|, seen);
      if Succ(t) == h {
        return EBUSY, 0, place, seen;
      }
      Publish(p, t, at, base + 2);
      return Done, Succ(t), place, seen;
    }

    /** fpgagpu_ioctl, case SUBMIT_CMD. */
    method SubmitCmd(c: Command, at: Schedule) returns (code: Code, ghost place: nat, ghost seen: nat)
      requires Valid()
      modifies this, slots
      ensures Valid() && history.Extends(old(history)) && history.StagedSince(old(history), staging[..])
      ensures |old(history.submitted)| <= place <= |history.submitted| && |old(history.consumed)| <= seen <= |history.consumed|
      ensures code == if place - seen == 511 then EBUSY else Done
      ensures code == Done ==> place < |history.submitted| && history.submitted[place] == PacketFor(c)
      ensures code == Done && Serial(at) ==> history.NoLoadSince(old(history), place)
      ensures NoSubmit(at(0)) ==> history.submitted == old(history.submitted) + if code == Done then [PacketFor(c)] else []
      ensures Quiet(at, 0, 4) ==> seen == |old(history.consumed)| && history.consumed == old(history.consumed)
    {
      var target;
      code, target, place, seen := Post(PacketFor(c), at, 0);
    }

    /** wait_event_interruptible_timeout: the condition is tested once on entry and once after each
        wake-up, until it holds, a signal arrives or the time is over. */
    method WaitForHead(target: nat, ghost count: nat, wakeUps: nat, signal: bool, at: Schedule, base: nat) returns (code: Code)
      requires Valid() && count <= |history.submitted| && target == count % QUEUE_SIZE
      modifies this, slots
      ensures Valid() && history.Extends(old(history)) && history.StagedSince(old(history), staging[..])
      ensures if code == Done then count <= |history.consumed| else |history.consumed| != count
      ensures code == Done || code == if signal then ERESTARTSYS else ETIMEDOUT
      ensures Serial(at) ==> history.NoLoadSince(old(history), -1)
      ensures Alone(at) ==> history.submitted == old(history.submitted)
      ensures at(base) == [Consume] && count == |old(history.consumed)| + 1 ==> code == Done && history.OneConsumed(old(history))
    {
      for i := 0 to wakeUps + 1
        invariant Valid() && history.Extends(old(history)) && history.StagedSince(old(history), staging[..])
        invariant Serial(at) ==> history.NoLoadSince(old(history), -1)
        invariant Alone(at) ==> history.submitted == old(history.submitted)
        invariant i > 0 ==> |history.consumed| != count
        invariant i == 0 ==> history == old(history)
        invariant at(base) == [Consume] && count == |old(history.consumed)| + 1 ==> i == 0
      {
        Happen(at(base + i), false);
        if head == target {
          WaitSound(slots[..], head, tail, history.submitted, history.consumed, count);
          return Done;
        }
      }
      return if signal then ERESTARTSYS else ETIMEDOUT;
    }

    /** fpgagpu_ioctl, case DOORBELL: success means that whatever was submitted before is consumed. */
    method Doorbell(wakeUps: nat, signal: bool, at: Schedule) returns (code: Code)
      requires Valid()
      modifies this, slots
      ensures Valid() && history.Extends(old(history)) && history.StagedSince(old(history), staging[..])
      ensures if code == Done then |old(history.submitted)| <= |history.consumed|
              else |history.consumed| != |old(history.submitted)|
      ensures code == Done || code == if signal then ERESTARTSYS else ETIMEDOUT
      ensures Serial(at) ==> history.NoLoadSince(old(history), -1)
      ensures Alone(at) ==> history.submitted == old(history.submitted)
      ensures at(0) == [Consume] && |old(history.submitted)| == |old(history.consumed)| + 1 ==> code == Done && history.Drained()
    {
      code := WaitForHead(tail, |history.submitted|, wakeUps, signal, at, 0);
    }

    /** The copy of the instructions into the staging buffer; `code` is what can be read from user memory. */
    method Stage(code: seq<u32>, size: u32, at: Schedule) returns (ok: bool)
      requires Valid() && 0 < size <= MAX_INSTRUCTIONS
      modifies this, slots, staging
      ensures Valid() && history.Extends(old(history))
      ensures ok == (|code| >= size)
      ensures ok ==> staging[..size] == code[..size]
      ensures staging[size..] == old(staging[size..])
      ensures Serial(at) ==> history.NoLoadSince(old(history), -1)
      ensures Quiet(at, 0, size) ==> history == old(history)
      ensures Alone(at) ==> history.submitted == old(history.submitted)
    {
      for i := 0 to size
        invariant Valid() && history.Extends(old(history))
        invariant Alone(at) ==> history.submitted == old(history.submitted)
        invariant i <= |code| && staging[..i] == code[..i]
        invariant staging[size..] == old(staging[size..])
        invariant Serial(at) ==> history.NoLoadSince(old(history), -1)
        invariant Quiet(at, 0, size) ==> history == old(history)
      {
        Happen(at(i), false);
        if i >= |code| { return false; }
        staging[i] := code[i];
        assert staging[..i + 1] == staging[..i] + [code[i]] == code[..i + 1];
      }
      return true;
    }

    /** The rest of a load, once the program is staged: submit the load packet and wait for it. */
    method LoadStaged(size: u32, kernelId: u32, wakeUps: nat, signal: bool, at: Schedule, base: nat)
      returns (st: Code, ghost place: nat, ghost seen: nat)
      requires Valid()
      modifies this, slots
      ensures Valid() && history.Extends(old(history)) && history.StagedSince(old(history), staging[..])
      ensures |old(history.submitted)| <= place <= |history.submitted| && |old(history.consumed)| <= seen <= |history.consumed|
      ensures st == EBUSY <==> place - seen == 511
      ensures st in {EBUSY, Done, if signal then ERESTARTSYS else ETIMEDOUT}
      ensures st == Done ==> place < |history.consumed| && history.submitted[place] == LoadPacket(size, kernelId)
      ensures st in {ERESTARTSYS, ETIMEDOUT} ==> |history.consumed| != place + 1
      ensures st == Done && Serial(at) ==> history.NoLoadSince(old(history), place)
      ensures st == Done && Alone(at) ==> history.submitted == old(history.submitted) + [LoadPacket(size, kernelId)]
      ensures Quiet(at, base, 4) && at(base + 4) == [Consume] && old(history.Drained()) ==> st == Done && history.Drained()
    {
      var target;
      st, target, place, seen := Post(LoadPacket(size, kernelId), at, base);
      if st != Done { return; }
      st := WaitForHead(target, place + 1, wakeUps, signal, at, base + 4);
    }

    /** fpgagpu_ioctl, case LOAD_KERNEL: success means that the load packet was consumed while the staging
        buffer held the program. */
    method LoadKernel(code: seq<u32>, size: u32, kernelId: u32, wakeUps: nat, signal: bool, at: Schedule)
      returns (st: Code, ghost place: nat, ghost seen: nat)
      requires Valid()
      modifies this, slots, staging
      ensures Valid() && history.Extends(old(history))
      ensures st == EINVAL <==> size == 0 || size > 1024
      ensures st == EFAULT <==> 0 < size <= 1024 && |code| < size
      ensures |old(history.submitted)| <= place <= |history.submitted| && |old(history.consumed)| <= seen <= |history.consumed|
      ensures st == EBUSY <==> 0 < size <= 1024 && |code| >= size && place - seen == 511
      ensures st in {EINVAL, EFAULT, EBUSY, Done, if signal then ERESTARTSYS else ETIMEDOUT}
      ensures st == Done ==>
                && |old(history.submitted)| <= place < |history.consumed|
                && history.submitted[place] == LoadPacket(size, kernelId)
                && |history.staged[place]| == 4096 && history.staged[place][..size] == code[..size]
      ensures st in {ERESTARTSYS, ETIMEDOUT} ==> |history.consumed| != place + 1
      ensures st == Done && Serial(at) ==> history.NoLoadSince(old(history), place)
      ensures st == EINVAL ==> history == old(history)
      ensures st == Done && Alone(at) ==> history.submitted == old(history.submitted) + [LoadPacket(size, kernelId)]
      ensures Quiet(at, 0, size + 4) && at(size + 4) == [Consume] && old(history.Drained())
              && 0 < size <= 1024 && |code| >= size ==>
                st == Done && history.Drained()
    {
      place, seen := |history.submitted|, |history.consumed|;
      if size == 0 || size > MAX_INSTRUCTIONS { return EINVAL, place, seen; }
      var ok := Stage(code, size, at);
      if !ok { return EFAULT, place, seen; }
      st, place, seen := LoadStaged(size, kernelId, wakeUps, signal, at, size);
    }
  }
}
