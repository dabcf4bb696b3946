/** util/WorkThreadPool.cpp: the object whose atomic steps WorkPool orders in every way. Each method is
    one critical section or one atomic operation of the source; `m_finished` and `m_discarded` are
    ghost records of the tasks run and thrown away. */
module WorkThreadPool {
  import opened WorkPool

  class WorkThreadPool {
    const m_threadNum: nat
    const m_maxQueueSize: nat
    var m_running: bool
    var m_stop: bool
    var m_stopNow: bool
    var m_tasks: seq<nat>
    var m_workers: seq<Worker>
    var m_activeTasks: int
    var m_completedTasks: nat
    /** The number the next accepted task gets; tasks are known by their numbers. */
    var m_accepted: nat
    ghost var m_finished: seq<nat>
    ghost var m_discarded: seq<nat>

    ghost function State(): Pool
      reads this
    {
      Pool(m_running, m_stop, m_stopNow, m_tasks, m_workers, m_activeTasks, m_completedTasks,
           m_accepted, m_finished, m_discarded)
    }

    function Configuration(): Config
    {
      Config(m_threadNum, m_maxQueueSize)
    }

    constructor (threadNum: nat, maxQueueSize: nat)
      requires threadNum > 0
      ensures Configuration() == Config(threadNum, maxQueueSize) && State() == Fresh
    {
      m_threadNum, m_maxQueueSize := threadNum, maxQueueSize;
      m_running, m_stop, m_stopNow := false, false, false;
      m_tasks, m_workers, m_activeTasks, m_completedTasks := [], [], 0, 0;
      m_accepted, m_finished, m_discarded := 0, [], [];
    }

    method Start() returns (started: bool)
      modifies this
      ensures State() == Apply(Configuration(), old(State()), Step.Start)
      ensures started == !old(m_running)
    {
      if m_running {
        return false;
      }
      m_running, m_stop, m_stopNow := true, false, false;
      var before := m_workers;
      var i := 0;
      while i < m_threadNum
        invariant i <= m_threadNum && m_workers == before + WaitingWorkers(i)
        invariant State() == old(State()).(running := true, stop := false, stopNow := false, workers := m_workers)
      {
        assert WaitingWorkers(i + 1) == WaitingWorkers(i) + [Waiting];
        m_workers := m_workers + [Waiting];
        i := i + 1;
      }
      return true;
    }

    /** The accepted task gets the number `ticket`. */
    method Enqueue() returns (accepted: bool, ticket: nat)
      modifies this
      ensures State() == Apply(Configuration(), old(State()), Step.Enqueue)
      ensures accepted == Accepts(Configuration(), old(State()))
      ensures accepted ==> ticket == old(m_accepted) && m_accepted == ticket + 1
    {
      ticket := m_accepted;
      if m_stop || m_stopNow {
        return false, ticket;
      }
      if m_maxQueueSize > 0 && |m_tasks| >= m_maxQueueSize {
        return false, ticket;
      }
      m_tasks := m_tasks + [ticket];
      m_accepted := m_accepted + 1;
      return true, ticket;
    }

    /** The worker's critical section, entered when the wait condition holds. */
    method Wake(i: nat)
      requires Enabled(State(), Step.Wake(i))
      modifies this
      ensures State() == Apply(Configuration(), old(State()), Step.Wake(i))
    {
      if m_stopNow {
        m_workers := m_workers[i := Exited];
        return;
      }
      if m_stop && m_tasks == [] {
        m_workers := m_workers[i := Exited];
        return;
      }
      if m_tasks != [] {
        m_workers := m_workers[i := Picked(m_tasks[0])];
        m_tasks := m_tasks[1..];
      }
    }

    method Begin(i: nat)
      requires Enabled(State(), Step.Begin(i))
      modifies this
      ensures State() == Apply(Configuration(), old(State()), Step.Begin(i))
    {
      m_activeTasks := m_activeTasks + 1;
      m_workers := m_workers[i := Running(m_workers[i].task)];
    }

    /** After the task, also when it threw. */
    method End(i: nat)
      requires Enabled(State(), Step.End(i))
      modifies this
      ensures State() == Apply(Configuration(), old(State()), Step.End(i))
    {
      m_activeTasks := m_activeTasks - 1;
      m_workers := m_workers[i := Ran(m_workers[i].task)];
    }

    method Count(i: nat)
      requires Enabled(State(), Step.Count(i))
      modifies this
      ensures State() == Apply(Configuration(), old(State()), Step.Count(i))
    {
      m_completedTasks := m_completedTasks + 1;
      m_finished := m_finished + [m_workers[i].task];
      m_workers := m_workers[i := Waiting];
    }

    method SignalStop()
      modifies this
      ensures State() == Apply(Configuration(), old(State()), Step.SignalStop)
    {
      if !m_running {
        return;
      }
      m_stop := true;
    }

    method SignalStopNow()
      modifies this
      ensures State() == Apply(Configuration(), old(State()), Step.SignalStopNow)
    {
      if !m_running {
        return;
      }
      m_stopNow := true;
      m_stop := true;
      m_discarded := m_discarded + m_tasks;
      m_tasks := [];
    }

    /** The end of stop and stopNow, once every worker thread has been joined. */
    method Join()
      requires Enabled(State(), Step.Join)
      modifies this
      ensures State() == Apply(Configuration(), old(State()), Step.Join)
    {
      m_workers := [];
      m_running := false;
    }
  }

  /** One step of the protocol, done by the object. */
  method Do(pool: WorkThreadPool, step: Step)
    requires Enabled(pool.State(), step)
    modifies pool
    ensures pool.State() == Apply(pool.Configuration(), old(pool.State()), step)
  {
    match step
    case Start => var _ := pool.Start();
    case Enqueue => var _, _ := pool.Enqueue();
    case Wake(i) => pool.Wake(i);
    case Begin(i) => pool.Begin(i);
    case End(i) => pool.End(i);
    case Count(i) => pool.Count(i);
    case SignalStop => pool.SignalStop();
    case SignalStopNow => pool.SignalStopNow();
    case Join => pool.Join();
  }

  /** Any interleaving on the object: tasks were accepted and dequeued in order, the queue kept its limit, no
      task was lost or doubled, and if stopNow was never called and the workers of the running pool have
      returned, then every accepted task has run exactly once. */
  method Drive(threadNum: nat, maxQueueSize: nat, steps: seq<Step>) returns (pool: WorkThreadPool)
    requires threadNum > 0 && Possible(Config(threadNum, maxQueueSize), Fresh, steps)
    ensures pool.Configuration() == Config(threadNum, maxQueueSize) && Inv(pool.Configuration(), pool.State())
    ensures forall t: nat :: Places(pool.State(), t) == if t < pool.m_accepted then 1 else 0
    ensures (forall i :: 0 <= i < |steps| ==> !steps[i].SignalStopNow?) && pool.m_running && AllExited(pool.m_workers) ==>
      forall t: nat :: multiset(pool.m_finished)[t] == if t < pool.m_accepted then 1 else 0
  {
    hide Apply, Enabled, Inv, Places;
    var c := Config(threadNum, maxQueueSize);
    pool := new WorkThreadPool(threadNum, maxQueueSize);
    assert steps[0..] == steps;
    for i := 0 to |steps|
      invariant fresh(pool) && pool.Configuration() == c
      invariant Possible(c, pool.State(), steps[i..]) && Run(c, pool.State(), steps[i..]) == Run(c, Fresh, steps)
    {
      assert steps[i..][1..] == steps[i + 1..];
      Do(pool, steps[i]);
    }
    assert steps[|steps|..] == [];
    StartsWell(c);
    EveryInterleaving(c, Fresh, steps);
    forall t: nat ensures Places(pool.State(), t) == if t < pool.m_accepted then 1 else 0 { Conservation(c, steps, t); }
    if (forall i :: 0 <= i < |steps| ==> !steps[i].SignalStopNow?) && pool.m_running && AllExited(pool.m_workers) {
      GracefulStop(c, steps);
    }
  }

  lemma StartsWell(c: Config)
    ensures Inv(c, Fresh)
  {}
}
