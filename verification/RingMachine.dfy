/** The ring protocol in small steps: any number of threads submitting under the global lock, waiters
    asleep on the device's wait queue, the firmware, and the interrupt that connects them. Every memory
    access is a step of its own, so a run is any interleaving. */
module RingMachine {
  import opened Words
  import opened RingCore

  /** Where a thread stands. `wait` distinguishes LOAD_KERNEL, which goes on to wait, from SUBMIT_CMD;
      `seen` and `count` are history: the packets consumed when the head was read, and the packets
      submitted when the target was taken. */
  datatype Pc =
    | Outside
    | Locked(p: Packet, wait: bool)
    | SawHead(p: Packet, wait: bool, head: nat, seen: nat)
    | SawBoth(p: Packet, wait: bool, head: nat, seen: nat, tail: nat)
    | Writing(p: Packet, wait: bool, tail: nat)
    | Stored(p: Packet, wait: bool, tail: nat)
    | Published(p: Packet, wait: bool, target: nat, count: nat)
    | Rang(p: Packet, wait: bool, target: nat, count: nat)
    | Full
    | Testing(target: nat, count: nat)
    | Preparing(target: nat, count: nat)
    | Queued(target: nat, count: nat, woken: bool)
    | Unsatisfied(target: nat, count: nat, woken: bool)
    | Asleep(target: nat, count: nat)
    | Finished(count: nat)
    | Refused
    | GaveUp

  datatype Owner = Nobody | HeldBy(thread: nat)

  /** The firmware does not poll the tail. A command interrupt makes it look; it then works until it finds
      the ring empty. */
  datatype Firmware = Idle | Looking | Executing(p: Packet) | OwesIrq

  datatype State = State(slots: seq<Packet>, head: nat, tail: nat, lock: Owner, threads: seq<Pc>,
                         fw: Firmware, commandPending: bool, irqPending: bool, handling: bool,
                         submitted: seq<Packet>, consumed: seq<Packet>)

  datatype Move =
    | Acquire(p: Packet, wait: bool) | ReadHead | ReadTail | Check | Tear(junk: Packet) | Store | Publish | RingFirmware | Release
    | Snapshot | Test | Enqueue | Retest | Sleep | Timer | GiveUp

  datatype Action = Thread(t: nat, m: Move) | WakeFirmware | Look | Commit | RaiseIrq | EnterHandler | WakeAll

  predicate InCall(pc: Pc) {
    !(pc.Outside? || pc.Finished? || pc.Refused? || pc.GaveUp?)
  }

  /** Between spin_lock and spin_unlock. */
  predicate Critical(pc: Pc) {
    pc.Locked? || pc.SawHead? || pc.SawBoth? || pc.Writing? || pc.Stored? || pc.Published? || pc.Rang? || pc.Full?
  }

  predicate CanMove(s: State, pc: Pc, m: Move) {
    match m
    case Acquire(_, _) => !InCall(pc) && s.lock.Nobody?
    case ReadHead => pc.Locked?
    case ReadTail => pc.SawHead?
    case Check => pc.SawBoth?
    case Tear(_) => pc.Writing? && pc.tail < |s.slots|
    case Store => pc.Writing? && pc.tail < |s.slots|
    case Publish => pc.Stored?
    case RingFirmware => pc.Published?
    case Release => pc.Rang? || pc.Full?
    case Snapshot => !InCall(pc)
    case Test => pc.Testing?
    case Enqueue => pc.Preparing?
    case Retest => pc.Queued?
    case Sleep => pc.Unsatisfied?
    case Timer => pc.Asleep?
    case GiveUp => pc.Unsatisfied?
  }

  /** The thread's next program point. */
  function NextPc(s: State, pc: Pc, m: Move): Pc
    requires CanMove(s, pc, m)
  {
    match m
    case Acquire(p, wait) => Locked(p, wait)
    case ReadHead => SawHead(pc.p, pc.wait, s.head, |s.consumed|)
    case ReadTail => SawBoth(pc.p, pc.wait, pc.head, pc.seen, s.tail)
    case Check => if Succ(pc.tail) == pc.head then Full else Writing(pc.p, pc.wait, pc.tail)
    case Tear(_) => pc
    case Store => Stored(pc.p, pc.wait, pc.tail)
    case Publish => Published(pc.p, pc.wait, Succ(pc.tail), |s.submitted| + 1)
    case RingFirmware => Rang(pc.p, pc.wait, pc.target, pc.count)
    case Release => if pc.Full? then Refused else if pc.wait then Testing(pc.target, pc.count) else Outside
    case Snapshot => Testing(s.tail, |s.submitted|)
    case Test => if s.head == pc.target then Finished(pc.count) else Preparing(pc.target, pc.count)
    case Enqueue => Queued(pc.target, pc.count, false)
    case Retest => if s.head == pc.target then Finished(pc.count) else Unsatisfied(pc.target, pc.count, pc.woken)
    case Sleep => if pc.woken then Preparing(pc.target, pc.count) else Asleep(pc.target, pc.count)
    case Timer => Preparing(pc.target, pc.count)
    case GiveUp => GaveUp
  }

  /** What the move does to the shared state. */
  function Shared(s: State, t: nat, pc: Pc, m: Move): State
    requires CanMove(s, pc, m)
  {
    match m
    case Acquire(_, _) => s.(lock := HeldBy(t))
    case Tear(junk) => s.(slots := s.slots[pc.tail := junk])
    case Store => s.(slots := s.slots[pc.tail := pc.p])
    case Publish => s.(tail := Succ(pc.tail), submitted := s.submitted + [pc.p])
    case RingFirmware => s.(commandPending := true)
    case Release => s.(lock := Nobody)
    case _ => s
  }

  /** wake_up_interruptible for one thread; a sleeping thread goes round the wait loop again. */
  function Woken(pc: Pc): Pc {
    match pc
    case Queued(target, count, _) => Queued(target, count, true)
    case Unsatisfied(target, count, _) => Unsatisfied(target, count, true)
    case Asleep(target, count) => Preparing(target, count)
    case _ => pc
  }

  predicate Enabled(s: State, a: Action) {
    match a
    case Thread(t, m) => t < |s.threads| && CanMove(s, s.threads[t], m)
    case WakeFirmware => s.fw.Idle? && s.commandPending
    case Look => s.fw.Looking? && s.head < |s.slots|
    case Commit => s.fw.Executing?
    case RaiseIrq => s.fw.OwesIrq?
    case EnterHandler => s.irqPending && !s.handling
    case WakeAll => s.handling
  }

  /** The firmware reads slot `head`, executes, commits the new head and only then raises the interrupt. */
  function Next(s: State, a: Action): State
    requires Enabled(s, a)
  {
    match a
    case Thread(t, m) => Shared(s, t, s.threads[t], m).(threads := s.threads[t := NextPc(s, s.threads[t], m)])
    case WakeFirmware => s.(fw := Looking, commandPending := false)
    case Look => s.(fw := if s.head == s.tail then Idle else Executing(s.slots[s.head]))
    case Commit => s.(fw := OwesIrq, head := Succ(s.head), consumed := s.consumed + [s.fw.p])
    case RaiseIrq => s.(fw := Looking, irqPending := true)
    case EnterHandler => s.(irqPending := false, handling := true)
    case WakeAll => s.(handling := false, threads := seq(|s.threads|, t requires 0 <= t < |s.threads| => Woken(s.threads[t])))
  }

  /** An interrupt is pending, being handled, or still to be raised. */
  predicate Alarm(s: State) {
    s.irqPending || s.handling || s.fw.OwesIrq?
  }

  /** What holds at each program point. */
  predicate PcInv(s: State, pc: Pc) {
    var sub, con := |s.submitted|, |s.consumed|;
    match pc
    case SawHead(_, _, head, seen) => head == seen % QUEUE_SIZE && seen <= con && sub < seen + QUEUE_SIZE
    case SawBoth(_, _, head, seen, tail) =>
      head == seen % QUEUE_SIZE && seen <= con && sub < seen + QUEUE_SIZE && tail == s.tail
    case Writing(_, _, tail) => tail == s.tail && sub - con <= 510
    case Stored(p, _, tail) => tail == s.tail < |s.slots| && sub - con <= 510 && s.slots[tail] == p
    case Published(p, _, target, count) => target == count % QUEUE_SIZE && 0 < count <= sub && s.submitted[count - 1] == p
    case Rang(p, _, target, count) => target == count % QUEUE_SIZE && 0 < count <= sub && s.submitted[count - 1] == p
    case Testing(target, count) => target == count % QUEUE_SIZE && count <= sub
    case Preparing(target, count) => target == count % QUEUE_SIZE && count <= sub
    case Queued(target, count, _) => target == count % QUEUE_SIZE && count <= sub
    case Unsatisfied(target, count, woken) =>
      target == count % QUEUE_SIZE && count <= sub && (s.head == target ==> woken || Alarm(s))
    case Asleep(target, count) => target == count % QUEUE_SIZE && count <= sub && (s.head == target ==> Alarm(s))
    case Finished(count) => count <= con
    case _ => true
  }

  ghost predicate Ring(s: State) {
    && RingInv(s.slots, s.head, s.tail, s.submitted, s.consumed)
    && (s.fw.Executing? ==> s.head != s.tail && s.fw.p == s.submitted[|s.consumed|])
  }

  /** Exactly the owner of the lock is in its critical section. */
  ghost predicate Exclusion(s: State) {
    forall t | 0 <= t < |s.threads| :: Critical(s.threads[t]) <==> s.lock == HeldBy(t)
  }

  /** Some thread has published its packet and is about to ring the firmware. */
  predicate Ringing(s: State) {
    s.lock.HeldBy? && s.lock.thread < |s.threads| && s.threads[s.lock.thread].Published?
  }

  /** An idle firmware has nothing to do, or its command interrupt is on its way. */
  predicate Called(s: State) {
    s.fw.Idle? && s.head != s.tail ==> s.commandPending || Ringing(s)
  }

  ghost predicate Inv(s: State) {
    Ring(s) && Exclusion(s) && Called(s) && forall t | 0 <= t < |s.threads| :: PcInv(s, s.threads[t])
  }

  predicate Initial(s: State) {
    && |s.slots| == QUEUE_SIZE && s.head == s.tail == 0 && s.lock == Nobody && s.fw == Idle
    && !s.commandPending && !s.irqPending && !s.handling && s.submitted == s.consumed == []
    && (forall t | 0 <= t < |s.threads| :: s.threads[t] == Outside)
  }

  predicate InProducer(m: Move) {
    m.Acquire? || m.ReadHead? || m.ReadTail? || m.Check? || m.RingFirmware? || m.Release?
  }

  /** Moves of a submitting thread that do not write the ring. */
  lemma ProducerMove(s: State, t: nat, m: Move)
    requires Inv(s) && t < |s.threads| && CanMove(s, s.threads[t], m) && InProducer(m)
    ensures Ring(Next(s, Thread(t, m))) && PcInv(Next(s, Thread(t, m)), NextPc(s, s.threads[t], m))
  {
    var pc := s.threads[t];
    assert PcInv(s, pc);
    if m.Check? { FullTest(|s.submitted|, |s.consumed|, pc.seen); }
  }

  /** The two tests of the wait condition. */
  lemma TestMove(s: State, t: nat, m: Move)
    requires Inv(s) && t < |s.threads| && CanMove(s, s.threads[t], m) && (m.Test? || m.Retest?)
    ensures Ring(Next(s, Thread(t, m))) && PcInv(Next(s, Thread(t, m)), NextPc(s, s.threads[t], m))
  {
    var pc := s.threads[t];
    assert PcInv(s, pc);
    if s.head == pc.target { WaitSound(s.slots, s.head, s.tail, s.submitted, s.consumed, pc.count); }
  }

  /** The other moves of a waiting thread. */
  lemma WaiterMove(s: State, t: nat, m: Move)
    requires Inv(s) && t < |s.threads| && CanMove(s, s.threads[t], m)
    requires m.Snapshot? || m.Enqueue? || m.Sleep? || m.Timer? || m.GiveUp?
    ensures Ring(Next(s, Thread(t, m))) && PcInv(Next(s, Thread(t, m)), NextPc(s, s.threads[t], m))
  {
    assert PcInv(s, s.threads[t]);
  }

  /** Writing the slot, torn or whole, while the firmware is free to run. */
  lemma StoreMove(s: State, t: nat, m: Move)
    requires Inv(s) && t < |s.threads| && CanMove(s, s.threads[t], m) && (m.Tear? || m.Store?)
    ensures Ring(Next(s, Thread(t, m))) && PcInv(Next(s, Thread(t, m)), NextPc(s, s.threads[t], m))
  {
    var pc := s.threads[t];
    assert PcInv(s, pc);
    StoreKeeps(s.slots, s.head, s.tail, s.submitted, s.consumed, if m.Tear? then m.junk else pc.p);
  }

  lemma PublishMove(s: State, t: nat)
    requires Inv(s) && t < |s.threads| && s.threads[t].Stored?
    ensures Ring(Next(s, Thread(t, Publish))) && PcInv(Next(s, Thread(t, Publish)), NextPc(s, s.threads[t], Publish))
  {
    assert PcInv(s, s.threads[t]);
    PublishKeeps(s.slots, s.head, s.tail, s.submitted, s.consumed);
    var s' := Next(s, Thread(t, Publish));
    InFlight(s'.slots, s'.head, s'.tail, s'.submitted, s'.consumed);
  }

  /** A thread's own step re-establishes what its new program point promises. */
  lemma MoverInv(s: State, t: nat, m: Move)
    requires Inv(s) && t < |s.threads| && CanMove(s, s.threads[t], m)
    ensures Ring(Next(s, Thread(t, m))) && PcInv(Next(s, Thread(t, m)), NextPc(s, s.threads[t], m))
  {
    match m
    case Publish => PublishMove(s, t);
    case Tear(_) => StoreMove(s, t, m);
    case Store => StoreMove(s, t, m);
    case Test => TestMove(s, t, m);
    case Retest => TestMove(s, t, m);
    case _ => if InProducer(m) { ProducerMove(s, t, m); } else { WaiterMove(s, t, m); }
  }

  /** A step of thread `t` does not disturb what another thread relies on. */
  lemma BystanderInv(s: State, t: nat, m: Move, o: nat)
    requires Inv(s) && t < |s.threads| && CanMove(s, s.threads[t], m) && o < |s.threads| && o != t
    ensures PcInv(Next(s, Thread(t, m)), s.threads[o])
  {
    assert PcInv(s, s.threads[o]);
    assert Critical(s.threads[o]) ==> !Critical(s.threads[t]);
  }

  lemma ThreadInv(s: State, t: nat, m: Move)
    requires Inv(s) && t < |s.threads| && CanMove(s, s.threads[t], m)
    ensures Inv(Next(s, Thread(t, m)))
  {
    var s' := Next(s, Thread(t, m));
    MoverInv(s, t, m);
    forall o | 0 <= o < |s'.threads|
      ensures PcInv(s', s'.threads[o])
    {
      if o != t { BystanderInv(s, t, m, o); }
    }
    MoverExclusion(s, t, m);
    MoverCalled(s, t, m);
  }

  lemma MoverExclusion(s: State, t: nat, m: Move)
    requires Exclusion(s) && t < |s.threads| && CanMove(s, s.threads[t], m)
    ensures Exclusion(Next(s, Thread(t, m)))
  {
    assert Critical(s.threads[t]) <==> s.lock == HeldBy(t);
  }

  /** The packet is published before the firmware is rung, and the lock is kept until it has been. */
  lemma MoverCalled(s: State, t: nat, m: Move)
    requires Exclusion(s) && Called(s) && t < |s.threads| && CanMove(s, s.threads[t], m)
    ensures Called(Next(s, Thread(t, m)))
  {
    assert Critical(s.threads[t]) <==> s.lock == HeldBy(t);
  }

  lemma CommitInv(s: State)
    requires Inv(s) && s.fw.Executing?
    ensures Inv(Next(s, Commit))
  {
    var s' := Next(s, Commit);
    ConsumeKeeps(s.slots, s.head, s.tail, s.submitted, s.consumed);
    forall t | 0 <= t < |s'.threads|
      ensures PcInv(s', s'.threads[t])
    {
      assert PcInv(s, s.threads[t]);
    }
  }

  lemma LookInv(s: State)
    requires Inv(s) && Enabled(s, Look)
    ensures Inv(Next(s, Look))
  {
    var s' := Next(s, Look);
    if s.head != s.tail { ConsumeKeeps(s.slots, s.head, s.tail, s.submitted, s.consumed); }
    forall t | 0 <= t < |s'.threads|
      ensures PcInv(s', s'.threads[t])
    {
      assert PcInv(s, s.threads[t]);
    }
  }

  /** Raising, delivering and handling an interrupt: the alarm passes on until everyone is awake. */
  lemma InterruptInv(s: State, a: Action)
    requires Inv(s) && Enabled(s, a) && (a.WakeFirmware? || a.RaiseIrq? || a.EnterHandler? || a.WakeAll?)
    ensures Inv(Next(s, a))
  {
    var s' := Next(s, a);
    forall t | 0 <= t < |s'.threads|
      ensures PcInv(s', s'.threads[t]) && Critical(s'.threads[t]) == Critical(s.threads[t])
    {
      assert PcInv(s, s.threads[t]);
    }
  }

  /** Main result, one step. */
  lemma StepInv(s: State, a: Action)
    requires Inv(s) && Enabled(s, a)
    ensures Inv(Next(s, a))
  {
    match a
    case Thread(t, m) => ThreadInv(s, t, m);
    case Look => LookInv(s);
    case Commit => CommitInv(s);
    case _ => InterruptInv(s, a);
  }

  /** The actions can be taken one after the other from `s`. */
  predicate Allowed(s: State, acts: seq<Action>)
    decreases |acts|
  {
    acts == [] || (Enabled(s, acts[0]) && Allowed(Next(s, acts[0]), acts[1..]))
  }

  function After(s: State, acts: seq<Action>): State
    requires Allowed(s, acts)
    decreases |acts|
  {
    if acts == [] then s else After(Next(s, acts[0]), acts[1..])
  }

  lemma InitialInv(s: State)
    requires Initial(s)
    ensures Inv(s)
  {}

  lemma {:induction false} RunInv(s: State, acts: seq<Action>)
    requires Inv(s) && Allowed(s, acts)
    ensures Inv(After(s, acts))
    decreases |acts|
  {
    if acts != [] {
      StepInv(s, acts[0]);
      RunInv(Next(s, acts[0]), acts[1..]);
    }
  }

  /** Some run of some number of threads leads to `z`. */
  ghost predicate Reachable(z: State) {
    exists s: State, acts: seq<Action> :: Initial(s) && Allowed(s, acts) && After(s, acts) == z
  }

  /** Main result, every run. */
  lemma ReachableInv(z: State)
    requires Reachable(z)
    ensures Inv(z)
  {
    var s: State, acts: seq<Action> :| Initial(s) && Allowed(s, acts) && After(s, acts) == z;
    InitialInv(s);
    RunInv(s, acts);
  }

  /** Whatever the interleaving: the firmware has consumed a prefix of what was submitted in lock order,
      at most 511 packets are in flight, and the slots from head to tail hold exactly those. */
  lemma RingSafe(z: State, k: nat)
    requires Reachable(z)
    ensures z.consumed <= z.submitted && |z.submitted| - |z.consumed| <= 511
    ensures z.head < QUEUE_SIZE && z.tail < QUEUE_SIZE && |z.slots| == QUEUE_SIZE
    ensures Distance(z.head, z.tail) == |z.submitted| - |z.consumed|
    ensures k < Distance(z.head, z.tail) ==> z.slots[(z.head + k) % QUEUE_SIZE] == z.submitted[|z.consumed| + k]
  {
    ReachableInv(z);
    InFlight(z.slots, z.head, z.tail, z.submitted, z.consumed);
    if k < Distance(z.head, z.tail) {
      SlotsAreUnconsumed(z.slots, z.head, z.tail, z.submitted, z.consumed, k);
    }
  }

  /** No two threads are ever in the critical section together. */
  lemma MutualExclusion(z: State, t: nat, o: nat)
    requires Reachable(z) && t < |z.threads| && o < |z.threads|
    requires Critical(z.threads[t]) && Critical(z.threads[o])
    ensures t == o
  {
    ReachableInv(z);
  }

  /** No step overwrites the slot of a packet that is not consumed yet, torn writes included. */
  lemma NoOverwrite(z: State, a: Action, i: nat)
    requires Reachable(z) && Enabled(z, a) && |z.consumed| <= i < |z.submitted|
    ensures |z.slots| == |Next(z, a).slots| == QUEUE_SIZE
    ensures Next(z, a).slots[i % QUEUE_SIZE] == z.slots[i % QUEUE_SIZE] == z.submitted[i]
  {
    ReachableInv(z);
    StepInv(z, a);
    assert z.slots[i % QUEUE_SIZE] == z.submitted[i];
    assert a.Thread? ==> Next(z, a).slots[i % QUEUE_SIZE] == Next(z, a).submitted[i];
  }

  /** The driver answers EBUSY exactly when 511 packets were in flight at the moment it read the head. */
  lemma BusyExactly(z: State, t: nat)
    requires Reachable(z) && t < |z.threads| && z.threads[t].SawBoth?
    ensures NextPc(z, z.threads[t], Check) == Full <==> |z.submitted| - z.threads[t].seen == 511
  {
    ReachableInv(z);
    assert PcInv(z, z.threads[t]);
    FullTest(|z.submitted|, |z.consumed|, z.threads[t].seen);
  }

  /** The thread is in the wait it took `count` for, or has come out of it. */
  predicate InWait(pc: Pc, count: nat) {
    match pc
    case Testing(_, c) => c == count
    case Preparing(_, c) => c == count
    case Queued(_, c, _) => c == count
    case Unsatisfied(_, c, _) => c == count
    case Asleep(_, c) => c == count
    case Finished(c) => c == count
    case GaveUp => true
    case _ => false
  }

  predicate NoNewCall(acts: seq<Action>, t: nat) {
    forall i | 0 <= i < |acts| :: !(acts[i].Thread? && acts[i].t == t && (acts[i].m.Acquire? || acts[i].m.Snapshot?))
  }

  lemma {:induction false} WaitKeepsCount(s: State, acts: seq<Action>, t: nat, count: nat)
    requires Allowed(s, acts) && NoNewCall(acts, t) && t < |s.threads| && InWait(s.threads[t], count)
    ensures |After(s, acts).threads| == |s.threads| && InWait(After(s, acts).threads[t], count)
    decreases |acts|
  {
    if acts != [] {
      assert !(acts[0].Thread? && acts[0].t == t && (acts[0].m.Acquire? || acts[0].m.Snapshot?));
      WaitKeepsCount(Next(s, acts[0]), acts[1..], t, count);
    }
  }

  /** The move with which a thread inside a call goes on. */
  function Forward(pc: Pc): Move
    requires InCall(pc)
  {
    match pc
    case Locked(_, _) => ReadHead
    case SawHead(_, _, _, _) => ReadTail
    case SawBoth(_, _, _, _, _) => Check
    case Writing(_, _, _) => Store
    case Stored(_, _, _) => Publish
    case Published(_, _, _, _) => RingFirmware
    case Testing(_, _) => Test
    case Preparing(_, _) => Enqueue
    case Queued(_, _, _) => Retest
    case Unsatisfied(_, _, _) => Sleep
    case Asleep(_, _) => Timer
    case _ => Release
  }

  /** No thread is ever stuck: inside a call it can go on, outside it can start a doorbell, and a submission
      or a load unless another thread holds the lock. */
  lemma ThreadsGoOn(z: State, t: nat, p: Packet, wait: bool)
    requires Reachable(z) && t < |z.threads|
    ensures InCall(z.threads[t]) ==> Enabled(z, Thread(t, Forward(z.threads[t])))
    ensures !InCall(z.threads[t]) ==> Enabled(z, Thread(t, Snapshot))
    ensures !InCall(z.threads[t]) ==> (Enabled(z, Thread(t, Acquire(p, wait))) <==> z.lock.Nobody?)
    ensures z.lock.HeldBy? && z.lock.thread < |z.threads| ==> Critical(z.threads[z.lock.thread])
  {
    ReachableInv(z);
    assert PcInv(z, z.threads[t]);
  }

  /** Moves left until the lock is free again. */
  function MovesToUnlock(pc: Pc): nat {
    match pc
    case Locked(_, _) => 7
    case SawHead(_, _, _, _) => 6
    case SawBoth(_, _, _, _, _) => 5
    case Writing(_, _, _) => 4
    case Stored(_, _, _) => 3
    case Published(_, _, _, _) => 2
    case Rang(_, _, _, _) => 1
    case Full => 1
    case _ => 0
  }

  lemma OwnMove(s: State, pc: Pc, m: Move)
    requires CanMove(s, pc, m) && Critical(pc)
    ensures MovesToUnlock(NextPc(s, pc, m)) <= MovesToUnlock(pc)
    ensures !m.Tear? ==> MovesToUnlock(NextPc(s, pc, m)) < MovesToUnlock(pc)
    ensures MovesToUnlock(NextPc(s, pc, m)) == 0 <==> m.Release?
  {}

  lemma OthersMove(z: State, a: Action, t: nat)
    requires Exclusion(z) && Enabled(z, a) && t < |z.threads| && Critical(z.threads[t]) && !(a.Thread? && a.t == t)
    ensures |Next(z, a).threads| == |z.threads| && Next(z, a).threads[t] == z.threads[t]
  {}

  /** Every critical section ends: each move of its thread other than a partial write brings the unlock
      closer, and nobody else's step delays it. */
  lemma CriticalSectionEnds(z: State, a: Action, t: nat)
    requires Reachable(z) && Enabled(z, a) && t < |z.threads| && Critical(z.threads[t])
    ensures |Next(z, a).threads| == |z.threads|
    ensures var pc, pc' := z.threads[t], Next(z, a).threads[t];
            && MovesToUnlock(pc') <= MovesToUnlock(pc)
            && (a.Thread? && a.t == t && !a.m.Tear? ==> MovesToUnlock(pc') < MovesToUnlock(pc))
            && (MovesToUnlock(pc') == 0 ==> Next(z, a).lock.Nobody?)
  {
    if a.Thread? && a.t == t {
      OwnMove(z, z.threads[t], a.m);
    } else {
      ReachableInv(z);
      OthersMove(z, a, t);
    }
  }

  /** What each move of the wait loop comes to. Only a thread whose last test failed gives up. */
  lemma WaitLoopExact(z: State, t: nat, m: Move)
    requires t < |z.threads| && CanMove(z, z.threads[t], m)
    ensures var pc, pc' := z.threads[t], NextPc(z, z.threads[t], m);
            && (pc.Testing? || pc.Queued? ==> (pc'.Finished? <==> z.head == pc.target))
            && (m.Enqueue? ==> pc'.Queued? && !pc'.woken)
            && (pc.Unsatisfied? && m.Sleep? ==> (pc'.Asleep? <==> !pc.woken))
            && (pc'.GaveUp? <==> pc.Unsatisfied? && m.GiveUp?)
  {}

  /** Neither is the firmware, unless it sleeps with no command interrupt pending; and what it executes is the
      oldest packet that is not consumed. */
  lemma FirmwareGoesOn(z: State)
    requires Reachable(z)
    ensures match z.fw
            case Idle => Enabled(z, WakeFirmware) <==> z.commandPending
            case Looking => Enabled(z, Look)
            case Executing(p) => Enabled(z, Commit) && |z.consumed| < |z.submitted| && p == z.submitted[|z.consumed|]
            case OwesIrq => Enabled(z, RaiseIrq)
    ensures z.fw.Idle? && z.commandPending ==> !Next(z, WakeFirmware).commandPending
    ensures z.irqPending ==> Enabled(z, EnterHandler) || Enabled(z, WakeAll)
  {
    ReachableInv(z);
    InFlight(z.slots, z.head, z.tail, z.submitted, z.consumed);
  }

  /** A firmware that finds the ring empty goes to sleep; it does not poll. */
  lemma FirmwareRests(s: State)
    requires Reachable(s) && s.fw.Looking? && s.submitted == s.consumed
    ensures Enabled(s, Look) && Next(s, Look) == s.(fw := Idle)
  {
    ReachableInv(s);
    InFlight(s.slots, s.head, s.tail, s.submitted, s.consumed);
  }

  /** Packet `p` is the one published in place `count - 1`. */
  predicate Own(s: State, count: nat, p: Packet) {
    0 < count <= |s.submitted| && s.submitted[count - 1] == p
  }

  /** How far a thread that acquired the lock for packet `p` may have come. */
  predicate Journey(s: State, pc: Pc, p: Packet, wait: bool) {
    match pc
    case Locked(q, w) => q == p && w == wait
    case SawHead(q, w, _, _) => q == p && w == wait
    case SawBoth(q, w, _, _, _) => q == p && w == wait
    case Writing(q, w, _) => q == p && w == wait
    case Stored(q, w, _) => q == p && w == wait
    case Published(q, w, _, count) => q == p && w == wait && Own(s, count, p)
    case Rang(q, w, _, count) => q == p && w == wait && Own(s, count, p)
    case Full => true
    case Refused => true
    case Outside => !wait && p in s.submitted
    case Testing(_, count) => wait && Own(s, count, p)
    case Preparing(_, count) => wait && Own(s, count, p)
    case Queued(_, count, _) => wait && Own(s, count, p)
    case Unsatisfied(_, count, _) => wait && Own(s, count, p)
    case Asleep(_, count) => wait && Own(s, count, p)
    case Finished(count) => wait && Own(s, count, p)
    case GaveUp => wait
  }

  lemma JourneyMove(s: State, t: nat, m: Move, p: Packet, wait: bool)
    requires t < |s.threads| && CanMove(s, s.threads[t], m) && !m.Acquire? && !m.Snapshot?
    requires Journey(s, s.threads[t], p, wait)
    ensures Journey(Next(s, Thread(t, m)), NextPc(s, s.threads[t], m), p, wait)
  {}

  lemma JourneyStep(s: State, a: Action, t: nat, p: Packet, wait: bool)
    requires Enabled(s, a) && t < |s.threads| && Journey(s, s.threads[t], p, wait)
    requires !(a.Thread? && a.t == t && (a.m.Acquire? || a.m.Snapshot?))
    ensures |Next(s, a).threads| == |s.threads| && Journey(Next(s, a), Next(s, a).threads[t], p, wait)
  {
    if a.Thread? && a.t == t { JourneyMove(s, t, a.m, p, wait); }
  }

  lemma {:induction false} JourneyRun(s: State, acts: seq<Action>, t: nat, p: Packet, wait: bool)
    requires Allowed(s, acts) && NoNewCall(acts, t) && t < |s.threads| && Journey(s, s.threads[t], p, wait)
    ensures |After(s, acts).threads| == |s.threads| && Journey(After(s, acts), After(s, acts).threads[t], p, wait)
    decreases |acts|
  {
    if acts != [] {
      assert !(acts[0].Thread? && acts[0].t == t && (acts[0].m.Acquire? || acts[0].m.Snapshot?));
      JourneyStep(s, acts[0], t, p, wait);
      JourneyRun(Next(s, acts[0]), acts[1..], t, p, wait);
    }
  }

  lemma JourneysEnd(z: State, t: nat, p: Packet, wait: bool)
    requires Inv(z) && t < |z.threads| && Journey(z, z.threads[t], p, wait)
    ensures var pc := z.threads[t];
            var left := pc.Outside? || pc.Refused? || pc.GaveUp? || pc.Finished?;
            && (wait && left ==> pc.Refused? || pc.GaveUp?
                                 || (pc.Finished? && 0 < pc.count <= |z.consumed| && z.consumed[pc.count - 1] == p))
            && (!wait ==> !pc.Testing? && !pc.Preparing? && !pc.Queued? && !pc.Unsatisfied? && !pc.Asleep?)
            && (!wait && left ==> pc.Refused? || (pc.Outside? && p in z.submitted))
  {
    assert PcInv(z, z.threads[t]);
    assert z.consumed == z.submitted[..|z.consumed|];
  }

  /** How the two submitting calls end, over every run. A thread that takes the lock to load (`wait`) leaves
      the call only because the ring was full, because it gave up waiting, or with its own packet consumed.
      One that takes it to submit never waits: it leaves because the ring was full or with its packet
      published. */
  lemma CallsEndRight(s: State, t: nat, p: Packet, wait: bool, during: seq<Action>, z: State)
    requires Reachable(s) && Enabled(s, Thread(t, Acquire(p, wait)))
    requires Allowed(Next(s, Thread(t, Acquire(p, wait))), during) && NoNewCall(during, t)
    requires z == After(Next(s, Thread(t, Acquire(p, wait))), during)
    ensures t < |z.threads|
    ensures var pc := z.threads[t];
            var left := pc.Outside? || pc.Refused? || pc.GaveUp? || pc.Finished?;
            && (wait && left ==> pc.Refused? || pc.GaveUp?
                                 || (pc.Finished? && 0 < pc.count <= |z.consumed| && z.consumed[pc.count - 1] == p))
            && (!wait ==> !pc.Testing? && !pc.Preparing? && !pc.Queued? && !pc.Unsatisfied? && !pc.Asleep?)
            && (!wait && left ==> pc.Refused? || (pc.Outside? && p in z.submitted))
  {
    var s' := Next(s, Thread(t, Acquire(p, wait)));
    assert Inv(s') by {
      ReachableInv(s);
      StepInv(s, Thread(t, Acquire(p, wait)));
    }
    assert Inv(z) by { RunInv(s', during); }
    JourneyRun(s', during, t, p, wait);
    JourneysEnd(z, t, p, wait);
  }

  /** A doorbell on a drained ring ends with its first test. */
  lemma DrainedDoorbell(s: State, t: nat)
    requires Reachable(s) && s.submitted == s.consumed && Enabled(s, Thread(t, Snapshot))
    ensures var s' := Next(s, Thread(t, Snapshot));
            Enabled(s', Thread(t, Test)) && Next(s', Thread(t, Test)).threads[t] == Finished(|s.submitted|)
  {
    ReachableInv(s);
    InFlight(s.slots, s.head, s.tail, s.submitted, s.consumed);
  }

  /** Doorbell and load waits are sound: when thread `t` starts waiting in `s` for the first `count`
      packets and comes out with success in `z`, those packets are consumed, however many packets came
      and went, and however often the counters wrapped, in between. */
  lemma WaitsAreSound(s: State, during: seq<Action>, t: nat, count: nat, z: State)
    requires Reachable(s) && t < |s.threads| && s.threads[t].Testing? && s.threads[t].count == count
    requires Allowed(s, during) && NoNewCall(during, t) && z == After(s, during)
    ensures |z.threads| == |s.threads| && count <= |s.submitted|
    ensures z.threads[t].Finished? ==> s.submitted[..count] <= z.consumed
  {
    ReachableInv(s);
    RunInv(s, during);
    WaitKeepsCount(s, during, t, count);
    HistoryGrows(s, during);
    assert PcInv(s, s.threads[t]) && PcInv(z, z.threads[t]);
    assert z.consumed == z.submitted[..|z.consumed|];
  }

  /** What those first packets are: for a doorbell everything published when it read the tail; for a load
      everything up to and including its own packet. */
  lemma WhatWaitsCover(z: State, t: nat, m: Move)
    requires Reachable(z) && t < |z.threads| && CanMove(z, z.threads[t], m) && NextPc(z, z.threads[t], m).Testing?
    ensures var count := Next(z, Thread(t, m)).threads[t].count;
            && (m.Snapshot? ==> count == |z.submitted|)
            && (!m.Snapshot? ==> z.threads[t].Rang? && 0 < count <= |z.submitted| && z.submitted[count - 1] == z.threads[t].p)
  {
    ReachableInv(z);
    assert PcInv(z, z.threads[t]);
  }

  /** No lost wake-up: when a thread sleeps although the head stands at its target, an interrupt is on
      its way. */
  lemma NoLostWakeUp(z: State, t: nat)
    requires Reachable(z) && t < |z.threads| && z.threads[t].Asleep? && z.head == z.threads[t].target
    ensures Alarm(z)
  {
    ReachableInv(z);
    assert PcInv(z, z.threads[t]);
  }

  /** What remains to be done for such a sleeper, given what has become of the interrupt. */
  function WakePath(s: State, t: nat): seq<Action> {
    var retry := [WakeAll] + ([Thread(t, Enqueue)] + ([Thread(t, Retest)] + []));
    if s.handling then retry else if s.irqPending then [EnterHandler] + retry else [RaiseIrq] + ([EnterHandler] + retry)
  }

  lemma OneMore(s: State, a: Action, rest: seq<Action>)
    requires Enabled(s, a) && Allowed(Next(s, a), rest)
    ensures Allowed(s, [a] + rest) && After(s, [a] + rest) == After(Next(s, a), rest)
  {
    assert ([a] + rest)[1..] == rest;
  }

  /** Delivering that interrupt ends the wait. */
  lemma WakeUpDelivers(s: State, t: nat)
    requires Reachable(s) && t < |s.threads| && s.threads[t].Asleep? && s.head == s.threads[t].target
    ensures Allowed(s, WakePath(s, t))
    ensures |After(s, WakePath(s, t)).threads| == |s.threads|
    ensures After(s, WakePath(s, t)).threads[t] == Finished(s.threads[t].count)
  {
    NoLostWakeUp(s, t);
    Delivery(s, t);
  }

  lemma Delivery(s: State, t: nat)
    requires Alarm(s) && t < |s.threads| && s.threads[t].Asleep? && s.head == s.threads[t].target
    ensures Allowed(s, WakePath(s, t))
    ensures |After(s, WakePath(s, t)).threads| == |s.threads|
    ensures After(s, WakePath(s, t)).threads[t] == Finished(s.threads[t].count)
    decreases if s.handling then 0 else if s.irqPending then 1 else 2
  {
    if s.handling {
      var s1 := Next(s, WakeAll);
      var s2 := Next(s1, Thread(t, Enqueue));
      OneMore(s2, Thread(t, Retest), []);
      OneMore(s1, Thread(t, Enqueue), [Thread(t, Retest)] + []);
      OneMore(s, WakeAll, [Thread(t, Enqueue)] + ([Thread(t, Retest)] + []));
    } else {
      var a := if s.irqPending then EnterHandler else RaiseIrq;
      Delivery(Next(s, a), t);
      OneMore(s, a, WakePath(Next(s, a), t));
    }
  }

  function Commits(acts: seq<Action>): nat {
    if acts == [] then 0 else (if acts[0].Commit? then 1 else 0) + Commits(acts[1..])
  }

  /** Nobody publishes during `acts`. */
  predicate NoPublish(acts: seq<Action>) {
    forall i | 0 <= i < |acts| :: !(acts[i].Thread? && acts[i].m.Publish?)
  }

  lemma DrainStep(s: State, a: Action)
    requires Inv(s) && Enabled(s, a) && !(a.Thread? && a.m.Publish?)
    ensures var z := Next(s, a);
            && Inv(z) && z.tail == s.tail && s.head < QUEUE_SIZE && z.head < QUEUE_SIZE && s.tail < QUEUE_SIZE
            && Distance(z.head, s.tail) == Distance(s.head, s.tail) - if a.Commit? then 1 else 0
  {
    StepInv(s, a);
    InFlight(s.slots, s.head, s.tail, s.submitted, s.consumed);
    var z := Next(s, a);
    InFlight(z.slots, z.head, z.tail, z.submitted, z.consumed);
  }

  /** Without further submissions the wait condition comes true after exactly (tail - head) mod 512
      consumptions, each of which brings it one closer, and then stays true. */
  lemma {:induction false} Drain(s: State, acts: seq<Action>)
    requires Inv(s) && Allowed(s, acts) && NoPublish(acts)
    ensures var z := After(s, acts);
            && Inv(z) && z.tail == s.tail
            && Distance(z.head, s.tail) == Distance(s.head, s.tail) - Commits(acts)
            && (z.head == s.tail <==> Commits(acts) == Distance(s.head, s.tail))
    decreases |acts|
  {
    InFlight(s.slots, s.head, s.tail, s.submitted, s.consumed);
    if acts != [] {
      assert !(acts[0].Thread? && acts[0].m.Publish?);
      DrainStep(s, acts[0]);
      Drain(Next(s, acts[0]), acts[1..]);
    }
  }

  /** No command interrupt is lost: whenever a packet is unconsumed, the firmware is at work, or its command
      interrupt is pending, or the thread that published the packet still holds the lock and is about to
      ring. */
  lemma NoLostCommand(z: State)
    requires Reachable(z) && z.head != z.tail && z.fw.Idle?
    ensures z.commandPending || Ringing(z)
  {
    ReachableInv(z);
  }

  /** The steps by which an idle firmware gets to the oldest packet. */
  function StartPath(s: State): seq<Action> {
    (if s.commandPending then [] else if s.lock.HeldBy? then [Thread(s.lock.thread, RingFirmware)] else [])
    + ([WakeFirmware] + ([Look] + []))
  }

  /** And these steps lead to the firmware executing the oldest packet that is not consumed. */
  lemma CommandDelivers(s: State)
    requires Reachable(s) && s.head != s.tail && s.fw.Idle?
    ensures Allowed(s, StartPath(s)) && |s.consumed| < |s.submitted|
    ensures After(s, StartPath(s)).fw == Executing(s.submitted[|s.consumed|])
  {
    NoLostCommand(s);
    ReachableInv(s);
    ConsumeKeeps(s.slots, s.head, s.tail, s.submitted, s.consumed);
    if s.commandPending {
      Started(s);
      assert StartPath(s) == [WakeFirmware] + ([Look] + []);
    } else {
      var ring := Thread(s.lock.thread, RingFirmware);
      Started(Next(s, ring));
      OneMore(s, ring, [WakeFirmware] + ([Look] + []));
    }
  }

  lemma Started(s: State)
    requires s.fw.Idle? && s.commandPending && s.head != s.tail && s.head < |s.slots|
    ensures Allowed(s, [WakeFirmware] + ([Look] + []))
    ensures After(s, [WakeFirmware] + ([Look] + [])).fw == Executing(s.slots[s.head])
  {
    OneMore(Next(s, WakeFirmware), Look, []);
    OneMore(s, WakeFirmware, [Look] + []);
  }

  /** History is only ever extended. */
  lemma {:induction false} HistoryGrows(s: State, acts: seq<Action>)
    requires Allowed(s, acts)
    ensures s.submitted <= After(s, acts).submitted && s.consumed <= After(s, acts).consumed
    decreases |acts|
  {
    if acts != [] {
      HistoryGrows(Next(s, acts[0]), acts[1..]);
    }
  }
}
