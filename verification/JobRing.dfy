/**
 * The single-consumer job ring of mkfs (`struct erofs_mkfs_dfops`, `lib/inode.c`): one thread queues
 * jobs, one worker runs them. The ring is updated in place; the two threads are a state machine whose
 * steps are the critical sections.
 */
module JobRing {
  import opened Arithmetic

  // ----- the ring ----------------------------------------------------------------------

  /** `Stop` is an item whose type is none of the job types. */
  datatype Job = Work(id: nat) | Stop

  datatype Ring = Ring(slots: seq<Job>, head: nat, tail: nat, idle: bool)

  predicate RingOk(r: Ring) {
    |r.slots| >= 2 && r.head < |r.slots| && r.tail < |r.slots|
  }

  predicate Full(r: Ring)
    requires RingOk(r)
  {
    (r.tail + 1) % |r.slots| == r.head
  }

  function Put(r: Ring, job: Job): (r': Ring)
    requires RingOk(r)
    ensures RingOk(r')
  {
    Ring(r.slots[r.tail := job], r.head, (r.tail + 1) % |r.slots|, false)
  }

  function Pop(r: Ring): (r': Ring)
    requires RingOk(r)
    ensures RingOk(r')
  {
    r.(head := (r.head + 1) % |r.slots|)
  }

  /** The source masks with `entries - 1`; the ring has 128 entries. */
  lemma MaskIsModulo(x: bv32)
    ensures x & 127 == x % 128
  {
    assert x == (x & 127) + (x >> 7) * 128;
  }

  /** The fields of `struct erofs_mkfs_dfops` that the critical sections change. */
  class Dfops {
    var queue: array<Job>
    var head: nat
    var tail: nat
    var idle: bool

    ghost function Snapshot(): Ring
      reads this, queue
    {
      Ring(queue[..], head, tail, idle)
    }

    constructor (entries: nat)
      requires entries >= 2
      ensures RingOk(Snapshot()) && fresh(queue)
      ensures queue.Length == entries && head == tail == 0 && !idle
    {
      queue := new Job[entries](_ => Stop);
      head, tail, idle := 0, 0, false;
    }

    /** The critical section of `erofs_mkfs_go` once there is room. */
    method Go(job: Job)
      requires RingOk(Snapshot()) && !Full(Snapshot())
      modifies this`tail, this`idle, queue
      ensures Snapshot() == Put(old(Snapshot()), job)
    {
      queue[tail] := job;
      tail := (tail + 1) % queue.Length;
      idle := false;
    }

    /** The critical section of `erofs_mkfs_pop_jobitem` once there is an item; the item stays in its slot. */
    method PopItem() returns (item: nat)
      requires RingOk(Snapshot()) && head != tail
      modifies this`head
      ensures Snapshot() == Pop(old(Snapshot())) && item == old(head)
    {
      item := head;
      head := (head + 1) % queue.Length;
    }
  }

  // ----- the threads -------------------------------------------------------------------

  /** The worker wants the lock, sleeps on `empty`, uses a slot without the lock, or has returned. */
  datatype Worker = Ready | Asleep | Using(slot: nat) | Stopped

  /**
   * The other thread does something else, wants to queue a job, sleeps on `full`, wants to flush,
   * sleeps on `drain`, or has been woken from `drain` and is about to return from the flush.
   */
  datatype Producer = Free | Going(job: Job) | WaitFull(job: Job) | Flushing | WaitDrain | Drained

  /** The ring, the threads, and the history: jobs queued, how many were popped, jobs run. */
  datatype State = State(ring: Ring, worker: Worker, producer: Producer,
                         queued: seq<Job>, popped: nat, ran: seq<Job>)

  /** The last three actions are wakeups that nobody asked for. */
  datatype Action =
    | CallGo(job: Job) | DoPut | SleepFull
    | CallFlush | FlushNow | SleepDrain | FlushReturns
    | DoPop | SleepEmpty | Finish(ok: bool)
    | WakeEmpty | WakeFull | WakeDrain

  predicate Enabled(s: State, a: Action)
    requires RingOk(s.ring)
  {
    match a
    case CallGo(_) => s.producer.Free?
    case DoPut => s.producer.Going? && !Full(s.ring)
    case SleepFull => s.producer.Going? && Full(s.ring)
    case CallFlush => s.producer.Free?
    case FlushNow => s.producer.Flushing? && s.ring.idle
    case SleepDrain => s.producer.Flushing? && !s.ring.idle
    case FlushReturns => s.producer.Drained?
    case DoPop => s.worker.Ready? && s.ring.head != s.ring.tail
    case SleepEmpty => s.worker.Ready? && s.ring.head == s.ring.tail
    case Finish(_) => s.worker.Using? && s.worker.slot < |s.ring.slots|
    case WakeEmpty => s.worker.Asleep?
    case WakeFull => s.producer.WaitFull?
    case WakeDrain => s.producer.WaitDrain?
  }

  /** The worker reads its item from the slot when it is done with it, whatever the slot then holds. */
  function Apply(s: State, a: Action): (t: State)
    requires RingOk(s.ring) && Enabled(s, a)
    ensures RingOk(t.ring)
  {
    match a
    case CallGo(job) => s.(producer := Going(job))
    case DoPut =>
      s.(ring := Put(s.ring, s.producer.job), producer := Free, queued := s.queued + [s.producer.job],
         worker := if s.worker.Asleep? then Ready else s.worker)
    case SleepFull => s.(producer := WaitFull(s.producer.job))
    case CallFlush => s.(producer := Flushing)
    case FlushNow => s.(producer := Free)
    case SleepDrain => s.(producer := WaitDrain)
    case FlushReturns => s.(producer := Free)
    case DoPop =>
      s.(ring := Pop(s.ring), popped := s.popped + 1, worker := Using(s.ring.head),
         producer := if s.producer.WaitFull? then Going(s.producer.job) else s.producer)
    case SleepEmpty =>
      s.(ring := s.ring.(idle := true), worker := Asleep,
         producer := if s.producer.WaitDrain? then Drained else s.producer)
    case Finish(ok) =>
      var job := s.ring.slots[s.worker.slot];
      s.(worker := if ok && job.Work? then Ready else Stopped, ran := s.ran + [job])
    case WakeEmpty => s.(worker := Ready)
    case WakeFull => s.(producer := Going(s.producer.job))
    case WakeDrain => s.(producer := Drained)
  }

  function Start(n: nat): State
    requires n >= 2
  {
    State(Ring(seq(n, _ => Stop), 0, 0, false), Ready, Free, [], 0, [])
  }

  // ----- what every step keeps ---------------------------------------------------------

  /** The slots between `lo` and the end of the queue hold what was queued. */
  ghost predicate Holds(slots: seq<Job>, queued: seq<Job>, lo: nat)
    requires |slots| > 0
  {
    forall i :: lo <= i < |queued| ==> slots[i % |slots|] == queued[i]
  }

  /** The oldest position whose slot is in use. */
  function Oldest(s: State): nat {
    if s.worker.Using? && s.popped > 0 then s.popped - 1 else s.popped
  }

  ghost predicate Counters(s: State) {
    && RingOk(s.ring)
    && s.ring.head == s.popped % |s.ring.slots|
    && s.ring.tail == |s.queued| % |s.ring.slots|
    && s.popped <= |s.queued| < s.popped + |s.ring.slots|
  }

  ghost predicate Invariant(s: State) {
    && Counters(s)
    && Holds(s.ring.slots, s.queued, Oldest(s))
    && |s.ran| == Oldest(s) && s.ran == s.queued[..|s.ran|]
    && (s.worker.Using? ==> s.popped > 0 && s.worker.slot == (s.popped - 1) % |s.ring.slots|)
    && (s.worker.Asleep? ==> s.popped == |s.queued|)
    && (s.ring.idle ==> s.popped == |s.queued| && (s.worker.Asleep? || s.worker.Ready?))
    && (s.worker.Asleep? ==> s.ring.idle)
    && (s.producer.WaitFull? ==> |s.queued| == s.popped + |s.ring.slots| - 1)
    && (s.producer.WaitDrain? ==> !s.ring.idle)
  }

  /** A flush that is about to return has waited for everything. */
  ghost predicate FlushOk(s: State) {
    s.producer.Drained? ==> s.ran == s.queued && !s.worker.Using?
  }

  lemma EmptyOrFull(s: State)
    requires Counters(s)
    ensures s.ring.head == s.ring.tail <==> s.popped == |s.queued|
    ensures Full(s.ring) <==> |s.queued| == s.popped + |s.ring.slots| - 1
    ensures Put(s.ring, Stop).tail == (|s.queued| + 1) % |s.ring.slots|
    ensures Pop(s.ring).head == (s.popped + 1) % |s.ring.slots|
  {
    hide Full;
    Cursors(s.popped, |s.queued|, |s.ring.slots|);
    NextIs(|s.queued|, |s.ring.slots|);
    NextIs(s.popped, |s.ring.slots|);
    FullIs(s.ring);
  }

  lemma FullIs(r: Ring)
    requires RingOk(r)
    ensures Full(r) <==> (r.tail + 1) % |r.slots| == r.head
  {
  }

  /** Cursors that run at most one lap apart tell the empty ring from the full one. */
  lemma Cursors(p: nat, q: nat, n: nat)
    requires n >= 2 && p <= q < p + n
    ensures p % n == q % n <==> p == q
    ensures (q + 1) % n == p % n <==> q == p + n - 1
  {
    if p < q { ModDistinct(p, q, n); }
    if q + 1 < p + n {
      ModDistinct(p, q + 1, n);
    } else {
      DivModUnique(p + n, n, p / n + 1, p % n);
    }
  }

  lemma NextIs(i: nat, n: nat)
    requires n >= 2
    ensures (i % n + 1) % n == (i + 1) % n
  {
    var q := i / n;
    if i % n + 1 == n {
      DivModUnique(i + 1, n, q + 1, 0);
      DivModUnique(n, n, 1, 0);
    } else {
      DivModUnique(i + 1, n, q, i % n + 1);
      DivModUnique(i % n + 1, n, 0, i % n + 1);
    }
  }

  /** Putting a job into a ring with room leaves every slot in use alone. */
  lemma PutHolds(slots: seq<Job>, queued: seq<Job>, lo: nat, job: Job)
    requires |slots| >= 2 && Holds(slots, queued, lo) && |queued| < lo + |slots|
    ensures Holds(slots[|queued| % |slots| := job], queued + [job], lo)
  {
    var n := |slots|;
    forall i | lo <= i < |queued| + 1
      ensures slots[|queued| % n := job][i % n] == (queued + [job])[i]
    {
      if i < |queued| { ModDistinct(i, |queued|, n); }
    }
  }

  /** Every step keeps the invariant; no step but an unasked wakeup from `drain` breaks a flush. */
  lemma StepKeeps(s: State, a: Action)
    requires Invariant(s) && Enabled(s, a)
    ensures Invariant(Apply(s, a))
    ensures FlushOk(s) && a != WakeDrain ==> FlushOk(Apply(s, a))
  {
    hide Holds;
    EmptyOrFull(s);
    match a
    case DoPut => PutKeeps(s);
    case DoPop => PopKeeps(s);
    case Finish(ok) => FinishKeeps(s, ok);
    case _ =>
  }

  lemma PutKeeps(s: State)
    requires Invariant(s) && Enabled(s, DoPut)
    ensures Invariant(Apply(s, DoPut)) && FlushOk(Apply(s, DoPut))
  {
    hide Holds;
    EmptyOrFull(s);
    PutHolds(s.ring.slots, s.queued, Oldest(s), s.producer.job);
  }

  lemma PopKeeps(s: State)
    requires Invariant(s) && Enabled(s, DoPop)
    ensures Invariant(Apply(s, DoPop)) && (FlushOk(s) ==> FlushOk(Apply(s, DoPop)))
  {
    hide Holds;
    EmptyOrFull(s);
  }

  lemma FinishKeeps(s: State, ok: bool)
    requires Invariant(s) && Enabled(s, Finish(ok))
    ensures Invariant(Apply(s, Finish(ok))) && (FlushOk(s) ==> FlushOk(Apply(s, Finish(ok))))
  {
    assert s.ring.slots[s.worker.slot] == s.queued[s.popped - 1];
    assert s.queued[..s.popped] == s.queued[..s.popped - 1] + [s.queued[s.popped - 1]];
  }

  // ----- what holds in every run -------------------------------------------------------

  /** `s` leads to `t` by the actions. */
  ghost predicate Run(s: State, actions: seq<Action>, t: State)
    decreases |actions|
  {
    if actions == [] then s == t
    else
      && RingOk(s.ring) && Enabled(s, actions[0])
      && Run(Apply(s, actions[0]), actions[1..], t)
  }

  lemma {:induction false} RunKeeps(s: State, actions: seq<Action>, t: State)
    requires Invariant(s) && Run(s, actions, t)
    ensures Invariant(t)
    ensures FlushOk(s) && WakeDrain !in actions ==> FlushOk(t)
    decreases |actions|
  {
    if actions != [] {
      StepKeeps(s, actions[0]);
      RunKeeps(Apply(s, actions[0]), actions[1..], t);
    }
  }

  /**
   * In every reachable state: the jobs run so far are the jobs queued, in their order, and the slot
   * that the worker uses outside the lock still holds its job.
   */
  lemma RingSafe(n: nat, actions: seq<Action>, s: State)
    requires n >= 2 && Run(Start(n), actions, s)
    ensures s.ran <= s.queued && |s.queued| - |s.ran| <= n
    ensures s.worker.Using? ==>
              |s.ran| < |s.queued| && s.worker.slot < |s.ring.slots|
              && s.ring.slots[s.worker.slot] == s.queued[|s.ran|]
  {
    RunKeeps(Start(n), actions, s);
    SlotsKept(Start(n), actions, s);
  }

  lemma {:induction false} SlotsKept(s: State, actions: seq<Action>, t: State)
    requires Run(s, actions, t)
    ensures |t.ring.slots| == |s.ring.slots|
    decreases |actions|
  {
    if actions != [] {
      SlotsKept(Apply(s, actions[0]), actions[1..], t);
    }
  }

  /** `erofs_mkfs_flushjobs` returns only when all queued jobs have run, unless a wakeup came unasked. */
  lemma FlushWaitsForAll(n: nat, actions: seq<Action>, s: State)
    requires n >= 2 && Run(Start(n), actions, s) && WakeDrain !in actions
    ensures RingOk(s.ring)
    ensures Enabled(s, FlushNow) || Enabled(s, FlushReturns) ==> s.ran == s.queued && !s.worker.Using?
  {
    RunKeeps(Start(n), actions, s);
  }

  /** The flush waits with `if`, not `while`: an unasked wakeup lets it return with a job still queued. */
  lemma SpuriousFlush(n: nat, job: Job) returns (actions: seq<Action>, s: State)
    requires n >= 2
    ensures Run(Start(n), actions, s) && RingOk(s.ring)
    ensures Enabled(s, FlushReturns) && s.ran == [] && s.queued == [job]
  {
    hide Put, Full;
    var s0 := Start(n);
    PutOnce(s0, job);
    var s1 := Apply(s0, CallGo(job));
    var s2 := Apply(s1, DoPut);
    actions := [CallGo(job), DoPut, CallFlush, SleepDrain, WakeDrain];
    s := Apply(Apply(Apply(s2, CallFlush), SleepDrain), WakeDrain);
    assert Run(s2, [CallFlush, SleepDrain, WakeDrain], s) by {
      assert Run(Apply(Apply(s2, CallFlush), SleepDrain), [WakeDrain], s);
      assert Run(Apply(s2, CallFlush), [SleepDrain, WakeDrain], s);
    }
    assert actions[1..] == [DoPut] + [CallFlush, SleepDrain, WakeDrain];
    assert Run(s1, [DoPut] + [CallFlush, SleepDrain, WakeDrain], s);
  }

  lemma PutOnce(s: State, job: Job)
    requires RingOk(s.ring) && s.ring.head == s.ring.tail == 0
    ensures !Full(s.ring) && !Put(s.ring, job).idle
  {
    DivModUnique(1, |s.ring.slots|, 0, 1);
  }

  // ----- nobody waits for ever ---------------------------------------------------------

  ghost predicate ProducerSleeps(s: State) {
    s.producer.WaitFull? || s.producer.WaitDrain?
  }

  /** What the worker does of its own accord. */
  predicate WorkerAction(a: Action) {
    a.DoPop? || a.SleepEmpty? || a.Finish?
  }

  /** Worker steps until the ring is empty. */
  function WorkLeft(s: State): nat
    requires s.popped <= |s.queued|
  {
    2 * (|s.queued| - s.popped) + (if s.worker.Using? then 2 else if s.worker.Ready? then 1 else 0)
  }

  /**
   * A sleeping producer can count on the worker unless that has stopped: the worker can take a step,
   * and any step it takes brings the wakeup closer.
   */
  lemma WorkerWakesProducer(s: State, a: Action)
    requires Invariant(s) && ProducerSleeps(s) && !s.worker.Stopped?
    ensures Enabled(s, DoPop) || Enabled(s, SleepEmpty) || Enabled(s, Finish(true))
    ensures Enabled(s, a) && WorkerAction(a) ==>
              WorkLeft(Apply(s, a)) < WorkLeft(s) || !ProducerSleeps(Apply(s, a))
  {
    EmptyOrFull(s);
  }

  /** A worker that has stopped strands a sleeping producer: nothing but an unasked wakeup can happen. */
  lemma StoppedStrands(s: State, a: Action)
    requires Invariant(s) && ProducerSleeps(s) && Enabled(s, a)
    ensures s.worker.Stopped? ==> a.WakeFull? || a.WakeDrain?
  {
  }

  /** The worker stops when a job fails or the item that is no job comes up, and for nothing else. */
  lemma StopsExactly(n: nat, actions: seq<Action>, s: State)
    requires n >= 2 && Run(Start(n), actions, s)
    ensures s.worker.Stopped? <==> Finish(false) in actions || Stop in s.ran
  {
    StoppedFor(Start(n), actions, s, false);
  }

  lemma {:induction false} StoppedFor(s: State, actions: seq<Action>, t: State, failed: bool)
    requires Run(s, actions, t) && (s.worker.Stopped? <==> failed || Stop in s.ran)
    ensures t.worker.Stopped? <==> failed || Finish(false) in actions || Stop in t.ran
    decreases |actions|
  {
    hide Put, Full;
    if actions != [] {
      var a := actions[0];
      assert Stop in Apply(s, a).ran <==> Stop in s.ran || (a.Finish? && s.ring.slots[s.worker.slot].Stop?);
      StoppedFor(Apply(s, a), actions[1..], t, failed || a == Finish(false));
      assert Finish(false) in actions <==> a == Finish(false) || Finish(false) in actions[1..];
    }
  }

  /** A worker that can do nothing of its own accord has stopped, or has run all that was queued. */
  lemma WorkerRests(s: State)
    requires Invariant(s) && !s.worker.Stopped?
    requires !Enabled(s, DoPop) && !Enabled(s, SleepEmpty) && !Enabled(s, Finish(true))
    ensures s.ran == s.queued && s.ring.idle
  {
    EmptyOrFull(s);
    assert s.queued[..|s.queued|] == s.queued;
  }

  /** If no job fails, the worker runs all that is queued, in order, and then sleeps. */
  lemma {:induction false} RunsAll(s: State) returns (actions: seq<Action>, t: State)
    requires Invariant(s) && !s.worker.Stopped? && Stop !in s.queued
    ensures Run(s, actions, t) && forall a :: a in actions ==> WorkerAction(a) && a != Finish(false)
    ensures t.ran == t.queued == s.queued && t.worker.Asleep? && t.ring.idle
    decreases WorkLeft(s)
  {
    hide Put, Full, Holds;
    EmptyOrFull(s);
    if s.worker.Asleep? {
      WorkerRests(s);
      return [], s;
    }
    var a := if s.worker.Using? then Finish(true) else if s.ring.head != s.ring.tail then DoPop else SleepEmpty;
    StepKeeps(s, a);
    NoStop(s);
    var rest;
    rest, t := RunsAll(Apply(s, a));
    actions := [a] + rest;
  }

  /** The slot in use holds a job that was queued. */
  lemma NoStop(s: State)
    requires Invariant(s) && Stop !in s.queued
    ensures s.worker.Using? ==> s.ring.slots[s.worker.slot].Work?
  {
    if s.worker.Using? {
      assert s.ring.slots[s.worker.slot] == s.queued[s.popped - 1];
    }
  }

  /** A failed job strands a flush: the worker has stopped, and what follows in the queue is never run. */
  lemma FailureStrands(n: nat, job: Job) returns (actions: seq<Action>, s: State)
    requires n >= 2
    ensures Run(Start(n), actions, s) && RingOk(s.ring)
    ensures s.worker.Stopped? && s.producer.WaitDrain? && s.ran == s.queued == [job]
    ensures forall a :: Enabled(s, a) ==> a == WakeDrain
  {
    hide Full;
    var s0 := Start(n);
    PutOnce(s0, job);
    NextIs(0, n);
    var s1 := Apply(s0, CallGo(job));
    var s2 := Apply(s1, DoPut);
    var s3 := Apply(s2, DoPop);
    var s4 := Apply(Apply(s3, CallFlush), SleepDrain);
    s := Apply(s4, Finish(false));
    actions := [CallGo(job), DoPut] + [DoPop, CallFlush, SleepDrain, Finish(false)];
    assert Run(s4, [Finish(false)], s);
    assert Run(Apply(s3, CallFlush), [SleepDrain, Finish(false)], s);
    assert Run(s3, [CallFlush, SleepDrain, Finish(false)], s);
    assert Run(s2, [DoPop, CallFlush, SleepDrain, Finish(false)], s);
    assert actions[1..] == [DoPut] + [DoPop, CallFlush, SleepDrain, Finish(false)];
    assert actions[1..][1..] == [DoPop, CallFlush, SleepDrain, Finish(false)];
    assert Run(s1, actions[1..], s);
  }
}
