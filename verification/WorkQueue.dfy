/**
 * The bounded work queue (`lib/workqueue.c`). The linked list is modelled in place; the threads
 * are a state machine whose steps are the critical sections, with sleeping threads made explicit.
 */
module WorkQueue {

  // ----- the list ----------------------------------------------------------------------

  /** `struct erofs_work` */
  class Work {
    const job: nat
    var next: Work?

    constructor (job: nat)
      ensures this.job == job && next == null
    {
      this.job, next := job, null;
    }
  }

  /** The element behind position `i`. */
  function After(spine: seq<Work>, i: nat): Work? {
    if i + 1 < |spine| then spine[i + 1] else null
  }

  function JobsOf(spine: seq<Work>): (r: seq<nat>)
    ensures |r| == |spine| && forall i :: 0 <= i < |r| ==> r[i] == spine[i].job
  {
    seq(|spine|, i requires 0 <= i < |spine| => spine[i].job)
  }

  /** The list fields of `struct erofs_workqueue`; `spine` is the list from `head` on. */
  class JobList {
    var head: Work?
    var tail: Work?
    var jobCount: nat
    ghost var spine: seq<Work>

    ghost predicate Valid()
      reads this, spine
    {
      && jobCount == |spine|
      && head == (if spine == [] then null else spine[0])
      && tail == (if spine == [] then null else spine[|spine| - 1])
      && (forall i :: 0 <= i < |spine| ==> spine[i].next == After(spine, i))
      && forall i, j :: 0 <= i < j < |spine| ==> spine[i] != spine[j]
    }

    /** The list as the state machine below sees it. */
    ghost function Jobs(): (r: seq<nat>)
      reads this
    {
      JobsOf(spine)
    }

    constructor ()
      ensures Valid() && spine == [] && Jobs() == []
    {
      head, tail, jobCount, spine := null, null, 0, [];
    }

    /** The list part of `erofs_queue_work`: what the step `Queue` of a thread does to the jobs. */
    method Append(work: Work)
      requires Valid() && work !in spine
      modifies this, work, tail
      ensures Valid() && spine == old(spine) + [work]
      ensures forall s: State, p: nat, woken: nat ::
                Enabled(s, Queue(p, woken)) && s.count == |s.jobs| && s.jobs == old(Jobs()) && s.producers[p].job == work.job ==>
                  Apply(s, Queue(p, woken)).jobs == Jobs() && Apply(s, Queue(p, woken)).count == jobCount
    {
      work.next := null;
      if head == null {
        head := work;
      } else {
        tail.next := work;
      }
      tail := work;
      jobCount := jobCount + 1;
      spine := spine + [work];
    }

    /** The list part of `worker_thread`: what the step `TakeJob` of a worker does to the jobs. */
    method Take() returns (work: Work)
      requires Valid() && jobCount > 0
      modifies this
      ensures Valid() && old(spine) == [work] + spine
      ensures forall s: State, i: nat ::
                Enabled(s, TakeJob(i)) && s.count == |s.jobs| && s.jobs == old(Jobs()) ==>
                  Apply(s, TakeJob(i)).jobs == Jobs() && s.jobs[0] == work.job
    {
      work := head;
      assert spine[0].next == After(spine, 0);
      head := work.next;
      if head == null {
        tail := null;
      }
      jobCount := jobCount - 1;
      spine := spine[1..];
      assert old(spine) == [work] + spine;
      assert forall i :: 0 <= i < |spine| ==> spine[i] == old(spine)[i + 1] && After(spine, i) == After(old(spine), i + 1);
    }
  }

  // ----- the threads -------------------------------------------------------------------

  /** A worker wants the lock, sleeps on `cond_empty`, runs a job without the lock, or has returned. */
  datatype Worker = Ready | Asleep | Working(job: nat) | Exited

  /** A thread that queues work wants nothing, wants the lock, or sleeps on `cond_full`. */
  datatype Producer = Idle | Asking(job: nat) | Waiting(job: nat)

  /** The queue, all threads, and the history: jobs queued, taken and finished, in that order. */
  datatype State = State(maxJobs: nat, jobs: seq<nat>, count: nat, shutdown: bool,
                         workers: seq<Worker>, producers: seq<Producer>,
                         queued: seq<nat>, taken: seq<nat>, finished: multiset<nat>)

  datatype Action =
    | Ask(p: nat, job: nat)
    | Queue(p: nat, woken: nat)
    | WaitFull(p: nat)
    | WaitEmpty(i: nat)
    | TakeJob(i: nat)
    | Exit(i: nat)
    | Finish(i: nat)
    | Destroy
    | WakeWorker(i: nat)
    | WakeProducer(p: nat)

  function NumReady(ws: seq<Worker>): nat {
    if ws == [] then 0 else NumReady(ws[..|ws| - 1]) + (if ws[|ws| - 1].Ready? then 1 else 0)
  }

  function NumAsleep(ws: seq<Worker>): nat {
    if ws == [] then 0 else NumAsleep(ws[..|ws| - 1]) + (if ws[|ws| - 1].Asleep? then 1 else 0)
  }

  /** The jobs that are running. */
  function Running(ws: seq<Worker>): multiset<nat> {
    if ws == [] then multiset{}
    else Running(ws[..|ws| - 1]) + RunningAt(ws[|ws| - 1])
  }

  function WakeAll(ps: seq<Producer>): (r: seq<Producer>)
    ensures |r| == |ps|
  {
    seq(|ps|, i requires 0 <= i < |ps| => if ps[i].Waiting? then Asking(ps[i].job) else ps[i])
  }

  function WakeWorkers(ws: seq<Worker>): (r: seq<Worker>)
    ensures |r| == |ws|
  {
    seq(|ws|, i requires 0 <= i < |ws| => if ws[i].Asleep? then Ready else ws[i])
  }

  /**
   * When a step can happen. A signal wakes one sleeping worker if there is any; `Queue` names it.
   * The owner destroys the queue only when no thread is queueing work, and none does afterwards.
   */
  predicate Enabled(s: State, a: Action) {
    match a
    case Ask(p, job) => p < |s.producers| && s.producers[p].Idle? && !s.shutdown
    case Queue(p, woken) =>
      && p < |s.producers| && s.producers[p].Asking? && s.count != s.maxJobs
      && (NumAsleep(s.workers) > 0 ==> woken < |s.workers| && s.workers[woken].Asleep?)
    case WaitFull(p) => p < |s.producers| && s.producers[p].Asking? && s.count == s.maxJobs
    case WaitEmpty(i) => i < |s.workers| && s.workers[i].Ready? && s.count == 0 && !s.shutdown
    case TakeJob(i) => i < |s.workers| && s.workers[i].Ready? && s.count != 0
    case Exit(i) => i < |s.workers| && s.workers[i].Ready? && s.count == 0 && s.shutdown
    case Finish(i) => i < |s.workers| && s.workers[i].Working?
    case Destroy => !s.shutdown && forall p :: 0 <= p < |s.producers| ==> s.producers[p].Idle?
    case WakeWorker(i) => i < |s.workers| && s.workers[i].Asleep?
    case WakeProducer(p) => p < |s.producers| && s.producers[p].Waiting?
  }

  /** The critical sections; the last two actions are wakeups that nobody asked for. */
  function Apply(s: State, a: Action): State
    requires Enabled(s, a) && s.count == |s.jobs|
  {
    match a
    case Ask(p, job) => s.(producers := s.producers[p := Asking(job)])
    case Queue(p, woken) =>
      var job := s.producers[p].job;
      s.(jobs := s.jobs + [job], count := s.count + 1, queued := s.queued + [job],
         producers := s.producers[p := Idle],
         workers := if NumAsleep(s.workers) > 0 then s.workers[woken := Ready] else s.workers)
    case WaitFull(p) => s.(producers := s.producers[p := Waiting(s.producers[p].job)])
    case WaitEmpty(i) => s.(workers := s.workers[i := Asleep])
    case TakeJob(i) =>
      s.(jobs := s.jobs[1..], count := s.count - 1, taken := s.taken + [s.jobs[0]],
         workers := s.workers[i := Working(s.jobs[0])],
         producers := if s.count - 1 == s.maxJobs - 1 then WakeAll(s.producers) else s.producers)
    case Exit(i) => s.(workers := s.workers[i := Exited])
    case Finish(i) =>
      s.(workers := s.workers[i := Ready], finished := s.finished + multiset{s.workers[i].job})
    case Destroy => s.(shutdown := true, workers := WakeWorkers(s.workers))
    case WakeWorker(i) => s.(workers := s.workers[i := Ready])
    case WakeProducer(p) => s.(producers := s.producers[p := Asking(s.producers[p].job)])
  }

  /** `erofs_alloc_workqueue` with `n` workers and `m` threads that may queue work. */
  function Start(maxJobs: nat, n: nat, m: nat): State {
    State(maxJobs, [], 0, false, seq(n, _ => Ready), seq(m, _ => Idle), [], [], multiset{})
  }

  /** What every step keeps. */
  ghost predicate Invariant(s: State) {
    && s.count == |s.jobs| <= s.maxJobs && s.maxJobs > 0
    && s.queued == s.taken + s.jobs
    && multiset(s.taken) == s.finished + Running(s.workers)
    && (NumAsleep(s.workers) > 0 ==> s.count <= NumReady(s.workers))
    && (s.shutdown ==> NumAsleep(s.workers) == 0 && forall p :: 0 <= p < |s.producers| ==> s.producers[p].Idle?)
    && (forall p :: 0 <= p < |s.producers| && s.producers[p].Waiting? ==> s.count == s.maxJobs)
    && (forall i :: 0 <= i < |s.workers| && s.workers[i].Exited? ==> s.shutdown && s.jobs == [])
  }

  /** The jobs that one worker runs. */
  function RunningAt(w: Worker): multiset<nat> {
    if w.Working? then multiset{w.job} else multiset{}
  }

  lemma {:induction false} ReadyUpdate(ws: seq<Worker>, i: nat, w: Worker)
    requires i < |ws|
    ensures NumReady(ws[i := w]) == NumReady(ws) - (if ws[i].Ready? then 1 else 0) + (if w.Ready? then 1 else 0)
  {
    var n := |ws| - 1;
    if i < n {
      ReadyUpdate(ws[..n], i, w);
      assert ws[i := w][..n] == ws[..n][i := w];
    } else {
      assert ws[i := w][..n] == ws[..n];
    }
  }

  lemma {:induction false} AsleepUpdate(ws: seq<Worker>, i: nat, w: Worker)
    requires i < |ws|
    ensures NumAsleep(ws[i := w]) == NumAsleep(ws) - (if ws[i].Asleep? then 1 else 0) + (if w.Asleep? then 1 else 0)
  {
    var n := |ws| - 1;
    if i < n {
      AsleepUpdate(ws[..n], i, w);
      assert ws[i := w][..n] == ws[..n][i := w];
    } else {
      assert ws[i := w][..n] == ws[..n];
    }
  }

  lemma Regroup(a: multiset<nat>, b: multiset<nat>, c: multiset<nat>, d: multiset<nat>, e: multiset<nat>)
    requires a + b == c + d
    ensures (a + e) + b == (c + e) + d
  {
    assert (a + e) + b == (a + b) + e;
    assert (c + e) + d == (c + d) + e;
  }

  lemma {:induction false} RunningUpdate(ws: seq<Worker>, i: nat, w: Worker)
    requires i < |ws|
    ensures Running(ws[i := w]) + RunningAt(ws[i]) == Running(ws) + RunningAt(w)
  {
    hide RunningAt;
    var n := |ws| - 1;
    if i < n {
      RunningUpdate(ws[..n], i, w);
      assert ws[i := w][..n] == ws[..n][i := w];
      Regroup(Running(ws[..n][i := w]), RunningAt(ws[i]), Running(ws[..n]), RunningAt(w), RunningAt(ws[n]));
    } else {
      assert ws[i := w][..n] == ws[..n];
    }
  }

  /** One worker changes. */
  lemma WorkersUpdate(ws: seq<Worker>, i: nat, w: Worker)
    requires i < |ws|
    ensures NumReady(ws[i := w]) == NumReady(ws) - (if ws[i].Ready? then 1 else 0) + (if w.Ready? then 1 else 0)
    ensures NumAsleep(ws[i := w]) == NumAsleep(ws) - (if ws[i].Asleep? then 1 else 0) + (if w.Asleep? then 1 else 0)
    ensures Running(ws[i := w]) + RunningAt(ws[i]) == Running(ws) + RunningAt(w)
    ensures RunningAt(w) == RunningAt(ws[i]) ==> Running(ws[i := w]) == Running(ws)
  {
    hide NumReady, NumAsleep, Running, RunningAt;
    ReadyUpdate(ws, i, w);
    AsleepUpdate(ws, i, w);
    RunningUpdate(ws, i, w);
    if RunningAt(w) == RunningAt(ws[i]) {
      assert Running(ws[i := w]) == Running(ws[i := w]) + RunningAt(w) - RunningAt(w);
      assert Running(ws) == Running(ws) + RunningAt(w) - RunningAt(w);
    }
  }

  lemma {:induction false} NoneAsleep(ws: seq<Worker>, i: nat)
    requires i < |ws| && NumAsleep(ws) == 0
    ensures !ws[i].Asleep?
  {
    if i < |ws| - 1 {
      NoneAsleep(ws[..|ws| - 1], i);
    }
  }

  lemma {:induction false} AllWoken(ws: seq<Worker>)
    ensures NumAsleep(WakeWorkers(ws)) == 0 && Running(WakeWorkers(ws)) == Running(ws)
    ensures NumReady(WakeWorkers(ws)) == NumReady(ws) + NumAsleep(ws)
  {
    if ws != [] {
      AllWoken(ws[..|ws| - 1]);
      assert WakeWorkers(ws)[..|ws| - 1] == WakeWorkers(ws[..|ws| - 1]);
    }
  }

  lemma StartInvariant(maxJobs: nat, n: nat, m: nat)
    requires maxJobs > 0
    ensures Invariant(Start(maxJobs, n, m))
  {
    AtStart(n);
  }

  lemma {:induction false} AtStart(n: nat)
    ensures var ws := seq(n, _ => Ready); NumAsleep(ws) == 0 && NumReady(ws) == n && Running(ws) == multiset{}
  {
    if n > 0 {
      AtStart(n - 1);
      assert seq(n, _ => Ready)[..n - 1] == seq(n - 1, _ => Ready);
    }
  }

  /** Every step keeps the invariant. */
  lemma StepKeeps(s: State, a: Action)
    requires Invariant(s) && Enabled(s, a)
    ensures Invariant(Apply(s, a))
  {
    match a
    case Ask(p, job) =>
    case Queue(p, woken) => QueueKeeps(s, p, woken);
    case WaitFull(p) =>
    case WaitEmpty(i) => StatusKeeps(s, a, i, Asleep);
    case TakeJob(i) => TakeKeeps(s, i);
    case Exit(i) => StatusKeeps(s, a, i, Exited);
    case Finish(i) => FinishKeeps(s, i);
    case Destroy => AllWoken(s.workers);
    case WakeWorker(i) => StatusKeeps(s, a, i, Ready);
    case WakeProducer(p) =>
  }

  lemma StatusKeeps(s: State, a: Action, i: nat, w: Worker)
    requires Invariant(s) && Enabled(s, a)
    requires (a == WaitEmpty(i) && w.Asleep?) || (a == Exit(i) && w.Exited?) || (a == WakeWorker(i) && w.Ready?)
    ensures Invariant(Apply(s, a))
  {
    hide NumReady, NumAsleep, Running;
    WorkersUpdate(s.workers, i, w);
    assert Running(Apply(s, a).workers) == Running(s.workers);
  }

  lemma QueueKeeps(s: State, p: nat, woken: nat)
    requires Invariant(s) && Enabled(s, Queue(p, woken))
    ensures Invariant(Apply(s, Queue(p, woken)))
  {
    hide NumReady, NumAsleep, Running;
    var t := Apply(s, Queue(p, woken));
    assert t.queued == t.taken + t.jobs;
    if NumAsleep(s.workers) > 0 {
      WorkersUpdate(s.workers, woken, Ready);
      assert Running(t.workers) == Running(s.workers);
    }
  }

  lemma TakeKeeps(s: State, i: nat)
    requires Invariant(s) && Enabled(s, TakeJob(i))
    ensures Invariant(Apply(s, TakeJob(i)))
  {
    hide NumReady, NumAsleep, Running;
    var t, job := Apply(s, TakeJob(i)), s.jobs[0];
    WorkersUpdate(s.workers, i, Working(job));
    assert s.jobs == [job] + s.jobs[1..];
    assert t.queued == t.taken + t.jobs;
    assert Running(t.workers) == Running(s.workers) + multiset{job};
    assert multiset(t.taken) == multiset(s.taken) + multiset{job};
  }

  lemma FinishKeeps(s: State, i: nat)
    requires Invariant(s) && Enabled(s, Finish(i))
    ensures Invariant(Apply(s, Finish(i)))
  {
    hide NumReady, NumAsleep, Running;
    var t, job := Apply(s, Finish(i)), s.workers[i].job;
    WorkersUpdate(s.workers, i, Ready);
    assert Running(t.workers) + multiset{job} == Running(s.workers);
    assert t.finished + Running(t.workers) == s.finished + (Running(t.workers) + multiset{job});
  }

  // ----- what holds in every run -------------------------------------------------------

  /** `s` leads to `t` by the actions. */
  ghost predicate Run(s: State, actions: seq<Action>, t: State)
    decreases |actions|
  {
    if actions == [] then s == t
    else
      && Enabled(s, actions[0]) && s.count == |s.jobs|
      && Run(Apply(s, actions[0]), actions[1..], t)
  }

  lemma {:induction false} RunKeeps(s: State, actions: seq<Action>, t: State)
    requires Invariant(s) && Run(s, actions, t)
    ensures Invariant(t)
    decreases |actions|
  {
    if actions != [] {
      StepKeeps(s, actions[0]);
      RunKeeps(Apply(s, actions[0]), actions[1..], t);
    }
  }

  /**
   * In every reachable state: the queue is bounded, jobs are taken once each in the order in which
   * they were queued, no job waits behind a sleeping worker, and no producer sleeps unless the
   * queue is full.
   */
  lemma QueueSafe(maxJobs: nat, n: nat, m: nat, actions: seq<Action>, s: State)
    requires maxJobs > 0 && Run(Start(maxJobs, n, m), actions, s)
    ensures s.count == |s.jobs| <= s.maxJobs && s.queued == s.taken + s.jobs
    ensures NumAsleep(s.workers) > 0 ==> s.count <= NumReady(s.workers)
    ensures forall p :: 0 <= p < |s.producers| && s.producers[p].Waiting? ==> s.count == s.maxJobs
  {
    StartInvariant(maxJobs, n, m);
    RunKeeps(Start(maxJobs, n, m), actions, s);
  }

  lemma {:induction false} RunningNone(ws: seq<Worker>)
    requires forall i :: 0 <= i < |ws| ==> ws[i].Exited?
    ensures Running(ws) == multiset{}
  {
    if ws != [] {
      RunningNone(ws[..|ws| - 1]);
    }
  }

  lemma {:induction false} WorkersStay(s: State, actions: seq<Action>, t: State)
    requires Run(s, actions, t)
    ensures |t.workers| == |s.workers|
    decreases |actions|
  {
    if actions != [] {
      WorkersStay(Apply(s, actions[0]), actions[1..], t);
    }
  }

  /** `erofs_destroy_workqueue` returns when all workers have: then every queued job has run. */
  lemma DestroyWaitsForAll(maxJobs: nat, n: nat, m: nat, actions: seq<Action>, s: State)
    requires maxJobs > 0 && n > 0 && Run(Start(maxJobs, n, m), actions, s)
    requires forall i :: 0 <= i < |s.workers| ==> s.workers[i].Exited?
    ensures s.jobs == [] && s.finished == multiset(s.queued)
  {
    StartInvariant(maxJobs, n, m);
    RunKeeps(Start(maxJobs, n, m), actions, s);
    WorkersStay(Start(maxJobs, n, m), actions, s);
    RunningNone(s.workers);
    assert s.workers[0].Exited?;
    assert s.taken + [] == s.taken;
  }

  /** While jobs are queued or the queue is being destroyed, some worker that has not returned can go on. */
  lemma NeverStuck(s: State, i: nat)
    requires Invariant(s) && i < |s.workers| && !s.workers[i].Exited? && (s.count > 0 || s.shutdown)
    ensures exists k: nat :: Enabled(s, TakeJob(k)) || Enabled(s, Exit(k)) || Enabled(s, Finish(k))
  {
    var k: nat := i;
    if s.workers[i].Asleep? {
      if NumAsleep(s.workers) == 0 {
        NoneAsleep(s.workers, i);
      } else {
        SomeReady(s.workers);
        k :| k < |s.workers| && s.workers[k].Ready?;
      }
    }
    assert Enabled(s, TakeJob(k)) || Enabled(s, Exit(k)) || Enabled(s, Finish(k));
  }

  lemma {:induction false} SomeReady(ws: seq<Worker>)
    requires NumReady(ws) > 0
    ensures exists k :: 0 <= k < |ws| && ws[k].Ready?
  {
    if !ws[|ws| - 1].Ready? {
      SomeReady(ws[..|ws| - 1]);
      var k :| 0 <= k < |ws| - 1 && ws[..|ws| - 1][k].Ready?;
      assert ws[k].Ready?;
    } else {
      assert ws[|ws| - 1].Ready?;
    }
  }

  /** Work left once the queue is being destroyed. */
  function Left(s: State): nat {
    3 * |s.jobs| + LeftOf(s.workers)
  }

  function LeftOf(ws: seq<Worker>): nat {
    if ws == [] then 0
    else LeftOf(ws[..|ws| - 1])
         + (match ws[|ws| - 1] case Working(_) => 3 case Ready => 2 case Asleep => 2 case Exited => 0)
  }

  lemma {:induction false} LeftUpdate(ws: seq<Worker>, i: nat, w: Worker)
    requires i < |ws|
    ensures LeftOf(ws[i := w]) + (match ws[i] case Working(_) => 3 case Ready => 2 case Asleep => 2 case Exited => 0)
              == LeftOf(ws) + (match w case Working(_) => 3 case Ready => 2 case Asleep => 2 case Exited => 0)
  {
    var n := |ws| - 1;
    if i < n {
      LeftUpdate(ws[..n], i, w);
      assert ws[i := w][..n] == ws[..n][i := w];
    } else {
      assert ws[i := w][..n] == ws[..n];
    }
  }

  /** Destruction ends: every step from then on brings the workers closer to returning. */
  lemma DestroyEnds(s: State, a: Action)
    requires Invariant(s) && s.shutdown && Enabled(s, a)
    ensures Left(Apply(s, a)) < Left(s) && Apply(s, a).shutdown
  {
    match a
    case TakeJob(i) => LeftUpdate(s.workers, i, Working(s.jobs[0]));
    case Exit(i) => LeftUpdate(s.workers, i, Exited);
    case Finish(i) => LeftUpdate(s.workers, i, Ready);
    case WakeWorker(i) => NoneAsleep(s.workers, i);
    case _ =>
  }
}
