/** net/TCPConnection.cpp, the output side and the read switches, with the task queue and the register
    calls of net/EventLoop.cpp: the objects whose events Connection orders in every way. */
module TcpConnection {
  import opened Bytes
  import opened Connection
  import B = Buffer
  import I = InterestMap

  const INVALID_SOCKET := -1

  class TCPConnection {
    var m_socket: int
    var m_enableRead: bool
    var m_registerReadEvent: bool
    var m_enableWrite: bool
    var m_registerWriteEvent: bool
    var m_shutdownAfterWrite: bool
    const m_sendBuf: B.Buffer
    const m_spEventLoop: EventLoop
    /** `this` as the multiplexer sees it, and the descriptor the connection was made for. */
    const m_self: I.Dispatcher
    ghost const fd: int
    /** Records of what the kernel took, what the buffer took, and the closes. */
    ghost var sent: seq<byte>
    ghost var accepted: seq<byte>
    ghost var closings: seq<Closing>

    constructor (socket: int, eventLoop: EventLoop, self: I.Dispatcher)
      requires socket != INVALID_SOCKET && socket !in eventLoop.m_table && INVALID_SOCKET !in eventLoop.m_table
      ensures Valid() && fresh(m_sendBuf) && fresh(m_sendBuf.data) && State() == Fresh
      ensures m_spEventLoop == eventLoop && fd == socket
    {
      m_socket, m_spEventLoop, m_self, fd := socket, eventLoop, self, socket;
      m_enableRead, m_registerReadEvent, m_enableWrite, m_registerWriteEvent := false, false, false, false;
      m_shutdownAfterWrite := false;
      m_sendBuf := new B.Buffer();
      sent, accepted, closings := [], [], [];
    }

    ghost predicate Valid()
      reads this, m_sendBuf, m_spEventLoop`m_table
    {
      m_sendBuf.Valid() && Linked()
    }

    /** While the socket is open, the multiplexer holds for it exactly what the two flags say. */
    ghost predicate Linked()
      reads this, m_spEventLoop`m_table
    {
      && INVALID_SOCKET !in m_spEventLoop.m_table
      && fd != INVALID_SOCKET
      && (m_socket == INVALID_SOCKET || (m_socket == fd && Entry(m_registerReadEvent, m_registerWriteEvent)))
    }

    /** What the multiplexer holds for the descriptor. */
    ghost predicate Entry(read: bool, write: bool)
      reads m_spEventLoop`m_table
    {
      if read || write
      then fd in m_spEventLoop.m_table && m_spEventLoop.m_table[fd] == I.Interest(read, write, m_self)
      else fd !in m_spEventLoop.m_table
    }

    /** The entries of all other descriptors. */
    ghost function Others(): I.Table
      reads m_spEventLoop`m_table
    {
      m_spEventLoop.m_table - {fd}
    }

    ghost function State(): Conn
      requires Valid()
      reads this, m_sendBuf, m_sendBuf.data, m_spEventLoop`m_table
    {
      Conn(m_socket != INVALID_SOCKET, m_enableRead, m_registerReadEvent, m_enableWrite, m_registerWriteEvent,
           m_shutdownAfterWrite, m_sendBuf.Contents(), sent, accepted, closings)
    }

    /** An open connection's descriptor stays in the multiplexer exactly if an interest was registered
        whose flag was down at that moment, and then with just those interests. */
    method OnClose(ghost cause: Cause)
      requires Valid()
      modifies this, m_spEventLoop`m_table
      ensures Valid() && State() == Connection.OnClose(old(State()), cause) && Others() == old(Others())
      ensures old(m_socket) != INVALID_SOCKET ==>
        Entry(old(m_registerReadEvent && !m_enableRead), old(m_registerWriteEvent && !m_enableWrite))
    {
      hide Entry;
      ghost var leaves := (m_registerReadEvent && !m_enableRead) || (m_registerWriteEvent && !m_enableWrite);
      StopReading();
      StopWriting();
      closings := closings + [Closing(cause, |accepted| - |sent|, leaves)];
      if m_socket != INVALID_SOCKET {
        m_socket := INVALID_SOCKET;
      }
    }

    method StopReading()
      requires Valid()
      modifies this`m_enableRead, this`m_registerReadEvent, m_spEventLoop`m_table
      ensures Valid() && Others() == old(Others())
      ensures !m_enableRead && m_registerReadEvent == old(m_registerReadEvent && !m_enableRead)
    {
      if m_enableRead {
        m_enableRead := false;
        UnregisterReadEvent();
      }
    }

    method StopWriting()
      requires Valid()
      modifies this`m_enableWrite, this`m_registerWriteEvent, m_spEventLoop`m_table
      ensures Valid() && Others() == old(Others())
      ensures !m_enableWrite && m_registerWriteEvent == old(m_registerWriteEvent && !m_enableWrite)
    {
      if m_enableWrite {
        m_enableWrite := false;
        UnregisterWriteEvent();
      }
    }

    method RegisterReadEvent()
      requires Valid() && m_socket != INVALID_SOCKET
      modifies this`m_registerReadEvent, m_spEventLoop`m_table
      ensures Valid() && m_registerReadEvent && Others() == old(Others())
    {
      if m_registerReadEvent {
        return;
      }
      m_spEventLoop.RegisterReadEvent(m_socket, m_self);
      m_registerReadEvent := true;
    }

    method RegisterWriteEvent()
      requires Valid() && m_socket != INVALID_SOCKET
      modifies this`m_registerWriteEvent, m_spEventLoop`m_table
      ensures Valid() && m_registerWriteEvent && Others() == old(Others())
    {
      if m_registerWriteEvent {
        return;
      }
      m_spEventLoop.RegisterWriteEvent(m_socket, m_self);
      m_registerWriteEvent := true;
    }

    /** Looks at m_enableWrite, too. */
    method UnregisterReadEvent()
      requires Valid()
      modifies this`m_registerReadEvent, m_spEventLoop`m_table
      ensures Valid() && !m_registerReadEvent && Others() == old(Others())
    {
      if !m_registerReadEvent && !m_enableWrite {
        return;
      }
      m_spEventLoop.UnregisterReadEvent(m_socket, m_self);
      m_registerReadEvent := false;
    }

    method UnregisterWriteEvent()
      requires Valid()
      modifies this`m_registerWriteEvent, m_spEventLoop`m_table
      ensures Valid() && !m_registerWriteEvent && Others() == old(Others())
    {
      if !m_registerWriteEvent && !m_enableWrite {
        return;
      }
      m_spEventLoop.UnregisterWriteEvent(m_socket, m_self);
      m_registerWriteEvent := false;
    }

    /** The multiplexer sets the flags, too. */
    method EnableRead(isEnabled: bool)
      requires Valid()
      modifies this`m_enableRead
      ensures Valid() && State() == old(State()).(enableRead := isEnabled)
    {
      m_enableRead := isEnabled;
    }

    method EnableWrite(isEnabled: bool)
      requires Valid()
      modifies this`m_enableWrite
      ensures Valid() && State() == old(State()).(enableWrite := isEnabled)
    {
      m_enableWrite := isEnabled;
    }

    method PauseRead()
      requires Valid()
      modifies this, m_spEventLoop`m_table
      ensures Valid() && State() == SetReading(old(State()), false) && Others() == old(Others())
    {
      if m_registerReadEvent {
        m_enableRead := false;
        UnregisterReadEvent();
      } else {
        m_enableRead := false;
      }
    }

    method ResumeRead()
      requires Valid()
      modifies this, m_spEventLoop`m_table
      ensures Valid() && State() == SetReading(old(State()), true) && Others() == old(Others())
    {
      if m_socket == INVALID_SOCKET {
        return;
      }
      m_enableRead := true;
      if !m_registerReadEvent {
        RegisterReadEvent();
      }
    }

    /** The kernel took n bytes from the front of the buffer. */
    method Retrieve(n: nat)
      requires Valid() && n <= m_sendBuf.ReadableBytes()
      modifies this`sent, m_sendBuf
      ensures Valid() && m_sendBuf.data == old(m_sendBuf.data) && State() == Take(old(State()), n)
    {
      sent := sent + m_sendBuf.Contents()[..n];
      m_sendBuf.Retrieve(n);
    }

    /** `result` is what ::send answers if it is called. */
    method SendInterval(data: seq<byte>, result: SendResult) returns (ok: bool)
      requires Valid() && Possible(State().open, |State().pending| + |data|, result)
      modifies this, m_sendBuf, m_sendBuf.data, m_spEventLoop`m_table
      ensures Valid() && (m_sendBuf.data == old(m_sendBuf.data) || fresh(m_sendBuf.data))
      ensures (State(), ok) == Connection.SendInterval(old(State()), data, result) && Others() == old(Others())
    {
      hide Connection.OnClose, Linked, Entry;
      if |data| == 0 {
        return true;
      }
      if m_socket == INVALID_SOCKET {
        return false;
      }
      Enqueue(data);
      if !m_enableWrite {
        match result
        case Sent(n) =>
          if n == 0 {
            OnClose(Broken);
            return false;
          }
          Retrieve(n);
          if m_sendBuf.ReadableBytes() > 0 {
            AwaitWritable();
            return true;
          }
          if m_shutdownAfterWrite {
            OnClose(Graceful);
            return true;
          }
        case WouldBlock =>
          AwaitWritable();
        case _ =>
          OnClose(Broken);
          return false;
      }
      return true;
    }

    /** The buffer takes the data. */
    method Enqueue(data: seq<byte>)
      requires Valid()
      modifies this`accepted, m_sendBuf, m_sendBuf.data
      ensures Valid() && (m_sendBuf.data == old(m_sendBuf.data) || fresh(m_sendBuf.data))
      ensures State() == old(State()).(pending := old(State()).pending + data, accepted := old(accepted) + data)
    {
      m_sendBuf.Append(data);
      accepted := accepted + data;
    }

    method AwaitWritable()
      requires Valid() && m_socket != INVALID_SOCKET
      modifies this`m_enableWrite, this`m_registerWriteEvent, m_spEventLoop`m_table
      ensures Valid() && State() == old(State()).(enableWrite := true, registerWrite := true) && Others() == old(Others())
    {
      m_enableWrite := true;
      RegisterWriteEvent();
    }

    method OnWrite(result: SendResult)
      requires Valid() && Possible(State().open, |State().pending|, result)
      modifies this, m_sendBuf, m_spEventLoop`m_table
      ensures Valid() && m_sendBuf.data == old(m_sendBuf.data)
      ensures State() == Connection.OnWrite(old(State()), result) && Others() == old(Others())
    {
      hide Connection.OnClose, Linked, Entry;
      if m_sendBuf.ReadableBytes() > 0 {
        match result
        case Sent(n) =>
          if n > 0 {
            Retrieve(n);
            if m_sendBuf.ReadableBytes() == 0 {
              Idle();
              if m_shutdownAfterWrite {
                OnClose(Graceful);
              }
            }
          }
        case Failed =>
          OnClose(Broken);
        case _ =>
      } else {
        Idle();
      }
    }

    /** Nothing is left to be written. */
    method Idle()
      requires Valid()
      modifies this`m_enableWrite, this`m_registerWriteEvent, m_spEventLoop`m_table
      ensures Valid() && State() == old(State()).(enableWrite := false, registerWrite := false) && Others() == old(Others())
    {
      m_enableWrite := false;
      UnregisterWriteEvent();
    }

    method ShutdownAfterWrite()
      requires Valid()
      modifies this, m_spEventLoop`m_table
      ensures Valid() && State() == Connection.ShutdownAfterWrite(old(State())) && Others() == old(Others())
    {
      if m_sendBuf.ReadableBytes() == 0 && !m_enableWrite {
        OnClose(Graceful);
      } else {
        m_shutdownAfterWrite := true;
      }
    }
  }

  // ---------- the loop's part ----------

  class EventLoop {
    var m_customTasks: seq<Task>
    /** What the multiplexer holds, whichever of the three it is. */
    var m_table: I.Table

    constructor ()
      ensures m_customTasks == [] && m_table == map[]
    {
      m_customTasks, m_table := [], map[];
    }

    method RegisterReadEvent(fd: int, dispatcher: I.Dispatcher)
      modifies this`m_table
      ensures m_table == I.Apply(old(m_table), I.RegisterRead(fd, dispatcher))
    {
      m_table := I.Apply(m_table, I.RegisterRead(fd, dispatcher));
    }

    method RegisterWriteEvent(fd: int, dispatcher: I.Dispatcher)
      modifies this`m_table
      ensures m_table == I.Apply(old(m_table), I.RegisterWrite(fd, dispatcher))
    {
      m_table := I.Apply(m_table, I.RegisterWrite(fd, dispatcher));
    }

    method UnregisterReadEvent(fd: int, dispatcher: I.Dispatcher)
      modifies this`m_table
      ensures m_table == I.Apply(old(m_table), I.UnregisterRead(fd, dispatcher))
    {
      m_table := I.Apply(m_table, I.UnregisterRead(fd, dispatcher));
    }

    method UnregisterWriteEvent(fd: int, dispatcher: I.Dispatcher)
      modifies this`m_table
      ensures m_table == I.Apply(old(m_table), I.UnregisterWrite(fd, dispatcher))
    {
      m_table := I.Apply(m_table, I.UnregisterWrite(fd, dispatcher));
    }

    method RegisterCustomTask(task: Task)
      modifies this`m_customTasks
      ensures m_customTasks == old(m_customTasks) + [task]
    {
      m_customTasks := m_customTasks + [task];
    }

    method RegisterTasks(tasks: seq<Task>)
      modifies this`m_customTasks
      ensures m_customTasks == old(m_customTasks) + tasks
    {
      for i := 0 to |tasks|
        invariant m_customTasks == old(m_customTasks) + tasks[..i]
      {
        RegisterCustomTask(tasks[i]);
      }
      assert tasks[..|tasks|] == tasks;
    }

    method Execute(conn: TCPConnection, task: Task, result: SendResult)
      requires conn.Valid() && conn.m_spEventLoop == this && TaskPossible(conn.State(), task, result)
      modifies conn, conn.m_sendBuf, conn.m_sendBuf.data, this`m_table
      ensures conn.Valid() && (conn.m_sendBuf.data == old(conn.m_sendBuf.data) || fresh(conn.m_sendBuf.data))
      ensures conn.State() == TaskDone(old(conn.State()), task, result)
    {
      match task
      case SendTask(_, data) => var _ := conn.SendInterval(data, result);
      case ShutdownTask(_) => conn.ShutdownAfterWrite();
      case ReadTask(_, on) => if on { conn.ResumeRead(); } else { conn.PauseRead(); }
    }

    /** The next task of the batch, and what is handed over meanwhile. */
    method ExecuteNext(conn: TCPConnection, task: Task, result: SendResult, more: seq<Task>,
                       ghost l: Loop, ghost results: seq<SendResult>, ghost late: seq<seq<Task>>) returns (ghost k: Loop)
      requires conn.Valid() && conn.m_spEventLoop == this && l.conn == conn.State() && l.queue == m_customTasks
      requires |results| == |late| && results != [] && result == results[0] && more == late[0]
      requires l.batch != [] && task == l.batch[0] && AllEnabled(l, TaskSteps(results, late))
      modifies this, conn, conn.m_sendBuf, conn.m_sendBuf.data
      ensures conn.Valid() && (conn.m_sendBuf.data == old(conn.m_sendBuf.data) || fresh(conn.m_sendBuf.data))
      ensures k.conn == conn.State() && k.queue == m_customTasks && k.batch == l.batch[1..] && k.executed == l.executed + [task]
      ensures AllEnabled(k, TaskSteps(results[1..], late[1..]))
      ensures Run(l, TaskSteps(results, late)) == Run(k, TaskSteps(results[1..], late[1..]))
    {
      hide Apply, Enabled, AllEnabled, Run, TaskSteps, TaskPossible, TaskDone, TCPConnection.Linked, TCPConnection.Entry;
      k := OneTask(l, results, late);
      Execute(conn, task, result);
      RegisterTasks(more);
    }

    /** Swaps the tasks out and runs them in order, the kernel answering the i-th with results[i]. While it
        runs, that task or other threads hand over late[i]; those wait for the next call. This is the steps
        Swap, RunTask and Register of the state machine, from the state l. */
    method DoOtherTasks(conn: TCPConnection, results: seq<SendResult>, late: seq<seq<Task>>, ghost l: Loop)
      requires conn.Valid() && conn.m_spEventLoop == this && |results| == |late| == |m_customTasks|
      requires l.conn == conn.State() && l.queue == m_customTasks && l.batch == []
      requires AllEnabled(l, [Swap] + TaskSteps(results, late))
      modifies this, conn, conn.m_sendBuf, conn.m_sendBuf.data
      ensures var k := Run(l, [Swap] + TaskSteps(results, late));
        conn.Valid() && conn.State() == k.conn && m_customTasks == k.queue && k.batch == []
        && k.executed == l.executed + old(m_customTasks)
    {
      hide Apply, Enabled, AllEnabled, Run, TaskSteps, TCPConnection.Valid, TCPConnection.State;
      ghost var steps := TaskSteps(results, late);
      ghost var cur := SwapFirst(l, steps);
      var tasks := m_customTasks;
      m_customTasks := [];
      assert tasks[0..] == tasks && results[0..] == results && late[0..] == late;
      for i := 0 to |tasks|
        invariant conn.Valid() && conn.State() == cur.conn && m_customTasks == cur.queue && tasks[i..] == cur.batch
        invariant conn.m_sendBuf.data == old(conn.m_sendBuf.data) || fresh(conn.m_sendBuf.data)
        invariant cur.executed == l.executed + tasks[..i]
        invariant AllEnabled(cur, TaskSteps(results[i..], late[i..]))
        invariant Run(cur, TaskSteps(results[i..], late[i..])) == Run(l, [Swap] + steps)
        modifies this, conn, conn.m_sendBuf, conn.m_sendBuf.data
      {
        assert tasks[i..][1..] == tasks[i + 1..] && results[i..][1..] == results[i + 1..] && late[i..][1..] == late[i + 1..];
        assert tasks[..i + 1] == tasks[..i] + [tasks[i]];
        cur := ExecuteNext(conn, tasks[i], results[i], late[i], cur, results[i..], late[i..]);
      }
      NoTask(cur, results[|tasks|..], late[|tasks|..]);
      assert tasks[..|tasks|] == tasks;
    }
  }

  /** The steps of a batch: each task, then what is handed over meanwhile. */
  function TaskSteps(results: seq<SendResult>, late: seq<seq<Task>>): seq<Step>
    requires |results| == |late|
  {
    if results == [] then [] else [RunTask(results[0])] + (Registers(late[0]) + TaskSteps(results[1..], late[1..]))
  }

  function Registers(tasks: seq<Task>): seq<Step>
  {
    if tasks == [] then [] else [Register(tasks[0])] + Registers(tasks[1..])
  }

  predicate TaskPossible(c: Conn, t: Task, r: SendResult)
  {
    t.SendTask? ==> Possible(c.open, |c.pending| + |t.data|, r)
  }

  function TaskDone(c: Conn, t: Task, r: SendResult): Conn
    requires TaskPossible(c, t, r)
  {
    match t
    case SendTask(_, data) => Connection.SendInterval(c, data, r).0
    case ShutdownTask(_) => Connection.ShutdownAfterWrite(c)
    case ReadTask(_, on) => SetReading(c, on)
  }

  lemma SwapFirst(l: Loop, steps: seq<Step>) returns (k: Loop)
    requires AllEnabled(l, [Swap] + steps) && l.batch == []
    ensures AllEnabled(k, steps) && Run(l, [Swap] + steps) == Run(k, steps)
    ensures k.conn == l.conn && k.queue == [] && k.batch == l.queue && k.executed == l.executed
  {
    RunsTo(l, Swap, steps);
    k := Apply(l, Swap);
  }

  lemma NoTask(l: Loop, results: seq<SendResult>, late: seq<seq<Task>>)
    requires results == [] && late == []
    ensures Run(l, TaskSteps(results, late)) == l
  {}

  lemma {:induction false} RegistersRun(l: Loop, tasks: seq<Task>, rest: seq<Step>)
    requires AllEnabled(l, Registers(tasks) + rest)
    ensures var k := l.(queue := l.queue + tasks, registered := l.registered + tasks);
      AllEnabled(k, rest) && Run(l, Registers(tasks) + rest) == Run(k, rest)
    decreases |tasks|
  {
    if tasks == [] {
      assert Registers(tasks) + rest == rest && l.queue + tasks == l.queue && l.registered + tasks == l.registered;
    } else {
      hide Apply, Enabled;
      var m := FirstRegistered(l, tasks, rest);
      RegistersRun(m, tasks[1..], rest);
      assert l.queue + tasks == l.queue + [tasks[0]] + tasks[1..];
      assert l.registered + tasks == l.registered + [tasks[0]] + tasks[1..];
    }
  }

  lemma FirstRegistered(l: Loop, tasks: seq<Task>, rest: seq<Step>) returns (m: Loop)
    requires tasks != [] && AllEnabled(l, Registers(tasks) + rest)
    ensures m == l.(queue := l.queue + [tasks[0]], registered := l.registered + [tasks[0]])
    ensures AllEnabled(m, Registers(tasks[1..]) + rest)
    ensures Run(l, Registers(tasks) + rest) == Run(m, Registers(tasks[1..]) + rest)
  {
    var more := Registers(tasks[1..]) + rest;
    assert Registers(tasks) + rest == [Register(tasks[0])] + more;
    RunsTo(l, Register(tasks[0]), more);
    m := Apply(l, Register(tasks[0]));
  }

  /** The state after the first task of the batch and what is handed over meanwhile. */
  lemma OneTask(l: Loop, results: seq<SendResult>, late: seq<seq<Task>>) returns (k: Loop)
    requires |results| == |late| && results != [] && AllEnabled(l, TaskSteps(results, late)) && l.batch != []
    ensures TaskPossible(l.conn, l.batch[0], results[0])
    ensures k.conn == TaskDone(l.conn, l.batch[0], results[0]) && k.queue == l.queue + late[0] && k.batch == l.batch[1..]
    ensures k.executed == l.executed + [l.batch[0]]
    ensures AllEnabled(k, TaskSteps(results[1..], late[1..]))
    ensures Run(l, TaskSteps(results, late)) == Run(k, TaskSteps(results[1..], late[1..]))
  {
    var rest := Registers(late[0]) + TaskSteps(results[1..], late[1..]);
    RunsTo(l, RunTask(results[0]), rest);
    var m := Apply(l, RunTask(results[0]));
    RegistersRun(m, late[0], TaskSteps(results[1..], late[1..]));
    k := m.(queue := m.queue + late[0], registered := m.registered + late[0]);
  }

  // ---------- any schedule on the objects ----------

  /** A step that does not touch the tasks. */
  predicate OnConnection(step: Step)
  {
    !step.Register? && !step.Swap? && !step.RunTask?
  }

  method DoOnConnection(conn: TCPConnection, step: Step, ghost l: Loop)
    requires conn.Valid() && l.conn == conn.State() && OnConnection(step) && Enabled(l, step)
    modifies conn, conn.m_sendBuf, conn.m_sendBuf.data, conn.m_spEventLoop`m_table
    ensures conn.Valid() && (conn.m_sendBuf.data == old(conn.m_sendBuf.data) || fresh(conn.m_sendBuf.data))
    ensures Apply(l, step).conn == conn.State()
  {
    hide Connection.SendInterval, Connection.OnWrite, Connection.OnClose, SetReading, Connection.ShutdownAfterWrite,
      TCPConnection.Linked, TCPConnection.Entry, Possible;
    match step
    case OwnSend(data, r) => var _ := conn.SendInterval(data, r);
    case OwnShutdown => conn.ShutdownAfterWrite();
    case OwnReading(on) => if on { conn.ResumeRead(); } else { conn.PauseRead(); }
    case WriteEvent(r) => conn.OnWrite(r);
    case Flip(enable) => conn.EnableWrite(enable);
    case FlipRead(enable) => conn.EnableRead(enable);
    case PeerCloses => conn.OnClose(ByPeer);
  }

  lemma OnConnectionOnly(l: Loop, step: Step)
    requires OnConnection(step) && Enabled(l, step)
    ensures var k := Apply(l, step); k.queue == l.queue && k.batch == l.batch
  {}

  lemma RunTaskIs(l: Loop, r: SendResult)
    requires Enabled(l, RunTask(r))
    ensures var k := Apply(l, RunTask(r));
      TaskPossible(l.conn, l.batch[0], r) && k.conn == TaskDone(l.conn, l.batch[0], r)
      && k.queue == l.queue && k.batch == l.batch[1..]
  {}

  /** One step of the state machine, done by the objects; `batch` is what doOtherTasks swapped out. */
  method Do(conn: TCPConnection, loop: EventLoop, batch: seq<Task>, step: Step, ghost l: Loop) returns (left: seq<Task>)
    requires conn.Valid() && conn.m_spEventLoop == loop
    requires l.conn == conn.State() && l.queue == loop.m_customTasks && l.batch == batch && Enabled(l, step)
    modifies conn, conn.m_sendBuf, conn.m_sendBuf.data, loop
    ensures conn.Valid() && (conn.m_sendBuf.data == old(conn.m_sendBuf.data) || fresh(conn.m_sendBuf.data))
    ensures var k := Apply(l, step); k.conn == conn.State() && k.queue == loop.m_customTasks && k.batch == left
  {
    hide TCPConnection.Linked, TCPConnection.Entry, Possible, TaskPossible, TaskDone, Send;
    left := batch;
    match step
    case Register(t) => loop.RegisterCustomTask(t);
    case Swap =>
      left := loop.m_customTasks;
      loop.m_customTasks := [];
    case RunTask(r) =>
      RunTaskIs(l, r);
      left := batch[1..];
      loop.Execute(conn, batch[0], r);
    case _ =>
      OnConnectionOnly(l, step);
      DoOnConnection(conn, step, l);
  }

  /** A connection and its loop through any schedule. The bytes the kernel took followed by those in the
      buffer are exactly the payloads taken, in order; an open connection with bytes in the buffer has its
      write interest in the multiplexer; and nothing was unsent at a graceful close. */
  method Drive(steps: seq<Step>, socket: int, self: I.Dispatcher) returns (conn: TCPConnection, loop: EventLoop)
    requires AllEnabled(Start, steps) && socket != INVALID_SOCKET
    ensures conn.Valid() && conn.m_spEventLoop == loop && conn.fd == socket
    ensures conn.State() == Run(Start, steps).conn && loop.m_customTasks == Run(Start, steps).queue
    ensures conn.sent + conn.m_sendBuf.Contents() == Concat(Run(Start, steps).taken)
    ensures conn.m_socket != INVALID_SOCKET && conn.m_sendBuf.Contents() != [] ==>
      socket in loop.m_table && loop.m_table[socket].write
    ensures forall i :: 0 <= i < |conn.closings| && conn.closings[i].cause.Graceful? ==> conn.closings[i].unsent == 0
  {
    hide Apply, Enabled;
    loop := new EventLoop();
    conn := new TCPConnection(socket, loop, self);
    var batch: seq<Task> := [];
    ghost var l := Start;
    assert steps[0..] == steps;
    for i := 0 to |steps|
      invariant conn.Valid() && fresh(conn) && fresh(loop) && fresh(conn.m_sendBuf) && fresh(conn.m_sendBuf.data)
      invariant conn.m_spEventLoop == loop && conn.fd == socket
      invariant l.conn == conn.State() && l.queue == loop.m_customTasks && l.batch == batch
      invariant AllEnabled(l, steps[i..]) && Run(l, steps[i..]) == Run(Start, steps)
    {
      assert steps[i..][1..] == steps[i + 1..];
      batch := Do(conn, loop, batch, steps[i], l);
      l := Apply(l, steps[i]);
    }
    assert steps[|steps|..] == [];
    OutputStream(steps, 1);
    NothingStranded(steps);
  }
}
