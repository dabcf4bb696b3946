/** util/WorkThreadPool.cpp as a protocol: N workers, any number of producers and a stopper take
    atomic steps (a critical section or one atomic operation each) in any order. */
module WorkPool {

  /** Where a worker is in `workerThread`: at the wait, holding the task it dequeued, running it,
      after it but before counting it, or returned. */
  datatype Worker = Waiting | Picked(task: nat) | Running(task: nat) | Ran(task: nat) | Exited

  /** Tasks are numbered in the order in which `enqueue` accepted them. `finished` and `discarded`
      record the tasks that ran and that stopNow threw away. */
  datatype Pool = Pool(running: bool, stop: bool, stopNow: bool, queue: seq<nat>, workers: seq<Worker>,
                       active: int, completed: nat,
                       accepted: nat, finished: seq<nat>, discarded: seq<nat>)

  datatype Config = Config(threadNum: nat, maxQueueSize: nat)

  const Fresh := Pool(false, false, false, [], [], 0, 0, 0, [], [])

  datatype Step = Start | Enqueue | Wake(i: nat) | Begin(i: nat) | End(i: nat) | Count(i: nat)
                | SignalStop | SignalStopNow | Join

  predicate AllExited(ws: seq<Worker>)
  {
    forall i :: 0 <= i < |ws| ==> ws[i].Exited?
  }

  /** When a step can be taken; the others' operations simply return. */
  predicate Enabled(p: Pool, step: Step)
  {
    match step
    case Wake(i) => i < |p.workers| && p.workers[i].Waiting? && (p.stop || p.queue != [])
    case Begin(i) => i < |p.workers| && p.workers[i].Picked?
    case End(i) => i < |p.workers| && p.workers[i].Running?
    case Count(i) => i < |p.workers| && p.workers[i].Ran?
    case Join => p.running && p.stop && AllExited(p.workers)
    case _ => true
  }

  predicate Accepts(c: Config, p: Pool)
  {
    !p.stop && !p.stopNow && !(c.maxQueueSize > 0 && |p.queue| >= c.maxQueueSize)
  }

  function WaitingWorkers(n: nat): (ws: seq<Worker>)
    ensures |ws| == n && forall i :: 0 <= i < n ==> ws[i] == Waiting
  {
    seq(n, i => Waiting)
  }

  function Apply(c: Config, p: Pool, step: Step): Pool
    requires Enabled(p, step)
  {
    match step
    case Start =>
      if p.running then p
      else p.(running := true, stop := false, stopNow := false, workers := p.workers + WaitingWorkers(c.threadNum))
    case Enqueue =>
      if Accepts(c, p) then p.(queue := p.queue + [p.accepted], accepted := p.accepted + 1) else p
    case Wake(i) =>
      if p.stopNow || (p.stop && p.queue == []) then p.(workers := p.workers[i := Exited])
      else p.(workers := p.workers[i := Picked(p.queue[0])], queue := p.queue[1..])
    case Begin(i) => p.(workers := p.workers[i := Running(p.workers[i].task)], active := p.active + 1)
    case End(i) => p.(workers := p.workers[i := Ran(p.workers[i].task)], active := p.active - 1)
    case Count(i) =>
      p.(workers := p.workers[i := Waiting], completed := p.completed + 1, finished := p.finished + [p.workers[i].task])
    case SignalStop => if p.running then p.(stop := true) else p
    case SignalStopNow =>
      if p.running then p.(stop := true, stopNow := true, discarded := p.discarded + p.queue, queue := []) else p
    case Join => p.(workers := [], running := false)
  }

  predicate Possible(c: Config, p: Pool, steps: seq<Step>)
    decreases |steps|
  {
    steps == [] || (Enabled(p, steps[0]) && Possible(c, Apply(c, p, steps[0]), steps[1..]))
  }

  function Run(c: Config, p: Pool, steps: seq<Step>): Pool
    requires Possible(c, p, steps)
    decreases |steps|
  {
    if steps == [] then p else Run(c, Apply(c, p, steps[0]), steps[1..])
  }

  // ---------- where the tasks are ----------

  predicate Holds(w: Worker, t: nat)
  {
    (w.Picked? || w.Running? || w.Ran?) && w.task == t
  }

  /** Number of workers holding task t. */
  function HeldCount(ws: seq<Worker>, t: nat): nat
  {
    if ws == [] then 0 else (if Holds(ws[0], t) then 1 else 0) + HeldCount(ws[1..], t)
  }

  function RunningCount(ws: seq<Worker>): (n: nat)
    ensures n <= |ws|
  {
    if ws == [] then 0 else (if ws[0].Running? then 1 else 0) + RunningCount(ws[1..])
  }

  /** Steps a worker still takes at least before it can return. */
  function Weight(w: Worker): nat
  {
    match w
    case Waiting => 1
    case Picked(_) => 4
    case Running(_) => 3
    case Ran(_) => 2
    case Exited => 0
  }

  function Weights(ws: seq<Worker>): nat
  {
    if ws == [] then 0 else Weight(ws[0]) + Weights(ws[1..])
  }

  lemma {:induction false} HeldUpdated(ws: seq<Worker>, i: nat, w: Worker, t: nat)
    requires i < |ws|
    ensures HeldCount(ws[i := w], t) + (if Holds(ws[i], t) then 1 else 0)
         == HeldCount(ws, t) + (if Holds(w, t) then 1 else 0)
  {
    if i == 0 {
      assert ws[i := w][1..] == ws[1..];
    } else {
      assert ws[i := w][1..] == ws[1..][i - 1 := w];
      HeldUpdated(ws[1..], i - 1, w, t);
    }
  }

  lemma {:induction false} RunningUpdated(ws: seq<Worker>, i: nat, w: Worker)
    requires i < |ws|
    ensures RunningCount(ws[i := w]) + (if ws[i].Running? then 1 else 0)
         == RunningCount(ws) + (if w.Running? then 1 else 0)
  {
    if i == 0 {
      assert ws[i := w][1..] == ws[1..];
    } else {
      assert ws[i := w][1..] == ws[1..][i - 1 := w];
      RunningUpdated(ws[1..], i - 1, w);
    }
  }

  lemma {:induction false} WeightsUpdated(ws: seq<Worker>, i: nat, w: Worker)
    requires i < |ws|
    ensures Weights(ws[i := w]) + Weight(ws[i]) == Weights(ws) + Weight(w)
  {
    if i == 0 {
      assert ws[i := w][1..] == ws[1..];
    } else {
      assert ws[i := w][1..] == ws[1..][i - 1 := w];
      WeightsUpdated(ws[1..], i - 1, w);
    }
  }

  lemma {:induction false} IdleHoldNothing(ws: seq<Worker>, t: nat)
    requires forall i :: 0 <= i < |ws| ==> ws[i].Exited? || ws[i].Waiting?
    ensures HeldCount(ws, t) == 0 && RunningCount(ws) == 0
  {
    if ws != [] { IdleHoldNothing(ws[1..], t); }
  }

  lemma {:induction false} HeldAppend(ws: seq<Worker>, vs: seq<Worker>, t: nat)
    ensures HeldCount(ws + vs, t) == HeldCount(ws, t) + HeldCount(vs, t)
  {
    if ws == [] {
      assert ws + vs == vs;
    } else {
      assert (ws + vs)[1..] == ws[1..] + vs;
      HeldAppend(ws[1..], vs, t);
    }
  }

  /** In how many places task t is: queued, held by a worker, finished, discarded. */
  function Places(p: Pool, t: nat): nat
  {
    multiset(p.queue)[t] + HeldCount(p.workers, t) + multiset(p.finished)[t] + multiset(p.discarded)[t]
  }

  lemma WakeMoves(c: Config, p: Pool, i: nat, t: nat)
    requires Enabled(p, Wake(i))
    ensures Places(Apply(c, p, Wake(i)), t) == Places(p, t)
  {
    var q := Apply(c, p, Wake(i));
    HeldUpdated(p.workers, i, q.workers[i], t);
    if q.workers[i].Picked? {
      FrontLeaves(p.queue, t);
    }
  }

  lemma FrontLeaves(queue: seq<nat>, t: nat)
    requires queue != []
    ensures multiset(queue)[t] == multiset(queue[1..])[t] + if t == queue[0] then 1 else 0
  {
    assert queue == [queue[0]] + queue[1..];
  }

  lemma CountMoves(c: Config, p: Pool, i: nat, t: nat)
    requires Enabled(p, Count(i))
    ensures Places(Apply(c, p, Count(i)), t) == Places(p, t)
  {
    var q := Apply(c, p, Count(i));
    HeldUpdated(p.workers, i, Waiting, t);
    assert multiset(q.finished)[t] == multiset(p.finished)[t] + if t == p.workers[i].task then 1 else 0;
  }

  /** A step moves task t from place to place; only accepting it puts it somewhere. */
  lemma StepMoves(c: Config, p: Pool, step: Step, t: nat)
    requires Enabled(p, step)
    ensures Places(Apply(c, p, step), t) ==
      Places(p, t) + if step.Enqueue? && Accepts(c, p) && t == p.accepted then 1 else 0
  {
    var ws := p.workers;
    match step
    case Start => HeldAppend(ws, WaitingWorkers(c.threadNum), t); IdleHoldNothing(WaitingWorkers(c.threadNum), t);
    case Wake(i) => WakeMoves(c, p, i, t);
    case Begin(i) => HeldUpdated(ws, i, Running(ws[i].task), t);
    case End(i) => HeldUpdated(ws, i, Ran(ws[i].task), t);
    case Count(i) => CountMoves(c, p, i, t);
    case Join => IdleHoldNothing(ws, t);
    case _ =>
  }

  lemma {:induction false} RunMoves(c: Config, p: Pool, steps: seq<Step>, t: nat)
    requires Possible(c, p, steps) && Places(p, t) == if t < p.accepted then 1 else 0
    ensures Places(Run(c, p, steps), t) == if t < Run(c, p, steps).accepted then 1 else 0
    decreases |steps|
  {
    if steps != [] {
      StepMoves(c, p, steps[0], t);
      RunMoves(c, Apply(c, p, steps[0]), steps[1..], t);
    }
  }

  /** Conservation in every interleaving: a task number given out so far is in exactly one place, and
      no other number is anywhere. In particular no task runs twice or is both run and discarded. */
  lemma Conservation(c: Config, steps: seq<Step>, t: nat)
    requires Possible(c, Fresh, steps)
    ensures Places(Run(c, Fresh, steps), t) == if t < Run(c, Fresh, steps).accepted then 1 else 0
  {
    RunMoves(c, Fresh, steps, t);
  }

  // ---------- order, limit, counters and flags ----------

  /** The queue holds the youngest accepted tasks in order, so tasks leave it in the order in which
      they were accepted. */
  predicate Fifo(p: Pool)
  {
    |p.queue| <= p.accepted && forall i :: 0 <= i < |p.queue| ==> p.queue[i] == p.accepted - |p.queue| + i
  }

  predicate Queueing(c: Config, p: Pool)
  {
    && (c.maxQueueSize > 0 ==> |p.queue| <= c.maxQueueSize)
    && p.completed == |p.finished|
    && (p.stopNow ==> p.stop && p.queue == [])
  }

  predicate Staffed(c: Config, p: Pool)
  {
    && (if p.running then |p.workers| == c.threadNum else p.workers == [])
    && p.active == RunningCount(p.workers)
    && (forall i :: 0 <= i < |p.workers| && p.workers[i].Exited? ==> p.stop && p.queue == [])
  }

  predicate Inv(c: Config, p: Pool)
  {
    Fifo(p) && Queueing(c, p) && Staffed(c, p)
  }

  lemma FifoKept(c: Config, p: Pool, step: Step)
    requires Fifo(p) && Enabled(p, step)
    ensures Fifo(Apply(c, p, step))
  {}

  lemma QueueingKept(c: Config, p: Pool, step: Step)
    requires Queueing(c, p) && Enabled(p, step)
    ensures Queueing(c, Apply(c, p, step))
  {}

  lemma StaffedKept(c: Config, p: Pool, step: Step)
    requires Inv(c, p) && Enabled(p, step)
    ensures Staffed(c, Apply(c, p, step))
  {
    var q := Apply(c, p, step);
    match step
    case Start => IdleHoldNothing(WaitingWorkers(c.threadNum), 0); assert [] + WaitingWorkers(c.threadNum) == WaitingWorkers(c.threadNum);
    case Wake(i) => RunningUpdated(p.workers, i, q.workers[i]);
    case Begin(i) => RunningUpdated(p.workers, i, q.workers[i]);
    case End(i) => RunningUpdated(p.workers, i, q.workers[i]);
    case Count(i) => RunningUpdated(p.workers, i, q.workers[i]);
    case Join => IdleHoldNothing(p.workers, 0);
    case _ =>
  }

  /** First in first out, the queue limit, the meaning of the two counters and "a worker returns only
      when the stop flag is up and the queue is empty" hold in every interleaving. */
  lemma {:induction false} EveryInterleaving(c: Config, p: Pool, steps: seq<Step>)
    requires Inv(c, p) && Possible(c, p, steps)
    ensures Inv(c, Run(c, p, steps))
    decreases |steps|
  {
    if steps != [] {
      FifoKept(c, p, steps[0]);
      QueueingKept(c, p, steps[0]);
      StaffedKept(c, p, steps[0]);
      EveryInterleaving(c, Apply(c, p, steps[0]), steps[1..]);
    }
  }

  lemma {:induction false} NoneDiscarded(c: Config, p: Pool, steps: seq<Step>)
    requires Possible(c, p, steps) && (forall i :: 0 <= i < |steps| ==> !steps[i].SignalStopNow?)
    requires p.discarded == []
    ensures Run(c, p, steps).discarded == []
    decreases |steps|
  {
    if steps != [] { NoneDiscarded(c, Apply(c, p, steps[0]), steps[1..]); }
  }

  /** A task is refused exactly if the pool is stopping, or has a limit and holds that many tasks. An
      accepted one goes behind all others. */
  lemma RefusedIff(c: Config, p: Pool)
    requires Inv(c, p)
    ensures var q := Apply(c, p, Enqueue);
      (q.queue == p.queue <==> p.stop || (c.maxQueueSize > 0 && |p.queue| == c.maxQueueSize))
      && (q.queue != p.queue ==> q.queue == p.queue + [p.accepted] && q.accepted == p.accepted + 1)
  {
    assert |p.queue + [p.accepted]| != |p.queue|;
  }

  /** A worker that wakes up takes the oldest task if there is one, stopping or not, and returns if there is
      none. */
  lemma WakeTakesOldest(c: Config, p: Pool, i: nat)
    requires Inv(c, p) && Enabled(p, Wake(i))
    ensures var q := Apply(c, p, Wake(i));
      if p.queue != [] then q.workers[i] == Picked(p.queue[0]) && p.queue == [p.queue[0]] + q.queue
      else q.workers[i] == Exited && q.queue == []
  {}

  /** Starting, stopping and stopping now mean something only to a pool that is not running, or is: then a
      started pool accepts again and nobody has anything, a stopped one keeps its queue and accepts nothing
      more, and one stopped now has discarded it. */
  lemma ControlMeans(c: Config, p: Pool)
    requires Inv(c, p)
    ensures var (a, b, d) := (Apply(c, p, Start), Apply(c, p, SignalStop), Apply(c, p, SignalStopNow));
      if p.running then
        a == p && b == p.(stop := true)
        && !Accepts(c, b) && !Accepts(c, d) && d.queue == [] && d.discarded == p.discarded + p.queue && d.workers == p.workers
      else
        b == p && d == p
        && a.queue == p.queue && a.running && !a.stop && !a.stopNow
        && |a.workers| == c.threadNum && forall i :: 0 <= i < c.threadNum ==> a.workers[i] == Waiting
  {}

  // ---------- stopping ----------

  lemma {:induction false} OnceEachCounts(s: seq<nat>, n: nat)
    requires forall t: nat :: multiset(s)[t] == if t < n then 1 else 0
    ensures |s| == n
  {
    if s != [] { assert s[0] in multiset(s); }
    if n > 0 {
      var last: nat := n - 1;
      assert last in multiset(s);
      var i :| 0 <= i < |s| && s[i] == last;
      var r: seq<nat> := s[..i] + s[i + 1..];
      assert s == s[..i] + [last] + s[i + 1..];
      assert multiset(s) == multiset(r) + multiset{last};
      forall t: nat ensures multiset(r)[t] == if t < last then 1 else 0 {
        assert multiset(s)[t] == multiset(r)[t] + if t == last then 1 else 0;
      }
      OnceEachCounts(r, last);
    }
  }

  /** Graceful stop: in every run without stopNow, once all workers of a running pool have returned,
      every accepted task has run exactly once, nothing is queued, and the counters say so. */
  lemma GracefulStop(c: Config, steps: seq<Step>)
    requires c.threadNum > 0 && Possible(c, Fresh, steps)
    requires forall i :: 0 <= i < |steps| ==> !steps[i].SignalStopNow?
    requires var p := Run(c, Fresh, steps); p.running && AllExited(p.workers)
    ensures var p := Run(c, Fresh, steps);
      (forall t: nat :: multiset(p.finished)[t] == if t < p.accepted then 1 else 0)
      && p.queue == [] && p.active == 0 && p.completed == p.accepted
  {
    EveryInterleaving(c, Fresh, steps);
    NoneDiscarded(c, Fresh, steps);
    var p := Run(c, Fresh, steps);
    assert p.workers[0].Exited?;
    forall t: nat ensures multiset(p.finished)[t] == if t < p.accepted then 1 else 0 {
      Conservation(c, steps, t);
      IdleHoldNothing(p.workers, t);
    }
    IdleHoldNothing(p.workers, 0);
    OnceEachCounts(p.finished, p.accepted);
  }

  function Remaining(p: Pool): nat
  {
    5 * |p.queue| + Weights(p.workers)
  }

  predicate ByWorker(step: Step)
  {
    step.Wake? || step.Begin? || step.End? || step.Count?
  }

  /** Every step of a worker brings the pool nearer to having done all it accepted, stopping or not. Once the
      stop flag is up nobody else's step puts that off. */
  lemma WorkersMakeProgress(c: Config, p: Pool, step: Step)
    requires Enabled(p, step)
    ensures ByWorker(step) ==> Remaining(Apply(c, p, step)) < Remaining(p)
    ensures p.running && p.stop && !step.Join? ==>
      var q := Apply(c, p, step); q.stop && q.running && Remaining(q) <= Remaining(p)
  {
    if ByWorker(step) {
      WeightsUpdated(p.workers, step.i, Apply(c, p, step).workers[step.i]);
    }
  }

  /** No worker can take a step. */
  ghost predicate Quiet(p: Pool)
  {
    forall step :: ByWorker(step) ==> !Enabled(p, step)
  }

  /** Left to themselves, the workers take only so many steps. */
  lemma {:induction false} WorkersComeToRest(c: Config, p: Pool, steps: seq<Step>)
    requires Possible(c, p, steps) && forall i :: 0 <= i < |steps| ==> ByWorker(steps[i])
    ensures var q := Run(c, p, steps);
      |steps| + Remaining(q) <= Remaining(p) && q.running == p.running && q.stop == p.stop
      && q.accepted == p.accepted && q.discarded == p.discarded
    decreases |steps|
  {
    if steps != [] {
      hide Remaining;
      WorkersMakeProgress(c, p, steps[0]);
      WorkersComeToRest(c, Apply(c, p, steps[0]), steps[1..]);
    }
  }

  lemma QuietIsIdle(c: Config, p: Pool)
    requires Inv(c, p) && p.running && c.threadNum > 0 && Quiet(p)
    ensures p.queue == [] && forall i :: 0 <= i < |p.workers| ==> p.workers[i].Waiting? || p.workers[i].Exited?
  {
    forall i | 0 <= i < |p.workers| ensures p.workers[i].Waiting? || p.workers[i].Exited? {
      assert !Enabled(p, Begin(i)) by { assert ByWorker(Begin(i)); }
      assert !Enabled(p, End(i)) by { assert ByWorker(End(i)); }
      assert !Enabled(p, Count(i)) by { assert ByWorker(Count(i)); }
    }
    assert !Enabled(p, Wake(0)) by { assert ByWorker(Wake(0)); }
    assert p.workers[0].Waiting? || p.workers[0].Exited?;
  }

  /** Everything accepted gets done: in a running pool, after any history and without any stop, the workers
      left to themselves come to rest after boundedly many steps, and when they do, every task accepted so
      far has run exactly once or was discarded by an earlier stopNow, and the queue is empty. */
  lemma AcceptedGetsDone(c: Config, history: seq<Step>, steps: seq<Step>)
    requires c.threadNum > 0 && Possible(c, Fresh, history) && Run(c, Fresh, history).running
    requires Possible(c, Run(c, Fresh, history), steps) && forall i :: 0 <= i < |steps| ==> ByWorker(steps[i])
    ensures |steps| <= Remaining(Run(c, Fresh, history))
    ensures var q := Run(c, Run(c, Fresh, history), steps);
      Quiet(q) ==> q.queue == [] && q.active == 0 && q.completed == |q.finished|
                   && forall t: nat :: multiset(q.finished)[t] + multiset(q.discarded)[t] == if t < q.accepted then 1 else 0
  {
    var p := Run(c, Fresh, history);
    var q := Run(c, p, steps);
    WorkersComeToRest(c, p, steps);
    EveryInterleaving(c, Fresh, history);
    EveryInterleaving(c, p, steps);
    if Quiet(q) {
      QuietIsIdle(c, q);
      forall t: nat ensures multiset(q.finished)[t] + multiset(q.discarded)[t] == if t < q.accepted then 1 else 0 {
        Conservation(c, history, t);
        RunMoves(c, p, steps, t);
        IdleHoldNothing(q.workers, t);
      }
      IdleHoldNothing(q.workers, 0);
    }
  }

  /** A stopping pool is never stuck: either the join goes through or some worker can take a step. */
  lemma StopNeverStuck(p: Pool)
    requires p.running && p.stop
    ensures Enabled(p, Join) || exists step :: ByWorker(step) && Enabled(p, step)
  {
    if !AllExited(p.workers) {
      var i :| 0 <= i < |p.workers| && !p.workers[i].Exited?;
      var w := p.workers[i];
      var step := if w.Waiting? then Wake(i) else if w.Picked? then Begin(i) else if w.Running? then End(i) else Count(i);
      assert ByWorker(step) && Enabled(p, step);
    }
  }
}
