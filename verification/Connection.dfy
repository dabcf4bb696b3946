/** The output side of net/TCPConnection.cpp as a state machine, and the cross-thread task queue of
    net/EventLoop.cpp that feeds it. The kernel's answers are part of the steps. */
module Connection {
  import opened Bytes

  /** What ::send answered: a count, "would block", "interrupted" or another error. */
  datatype SendResult = Sent(n: nat) | WouldBlock | Interrupted | Failed

  datatype Cause = Graceful | Broken | ByPeer

  /** One run of onClose: the number of accepted bytes not sent at that time, and whether read or write
      interest stays registered for the descriptor that is closed. */
  datatype Closing = Closing(cause: Cause, unsent: int, leaves: bool)

  /** `sent` and `accepted` record all bytes the kernel took and all bytes appended to the buffer. */
  datatype Conn = Conn(open: bool, enableRead: bool, registerRead: bool,
                       enableWrite: bool, registerWrite: bool, shutdown: bool,
                       pending: seq<byte>, sent: seq<byte>, accepted: seq<byte>, closings: seq<Closing>)

  const Fresh := Conn(true, false, false, false, false, false, [], [], [], [])

  /** The kernel never takes more than it was offered, and refuses a closed socket. */
  predicate Possible(open: bool, offered: nat, r: SendResult)
  {
    if open then r.Sent? ==> r.n <= offered else r.Failed?
  }

  function OnClose(c: Conn, cause: Cause): Conn
  {
    var (reading, writing) := (c.registerRead && !c.enableRead, c.registerWrite && !c.enableWrite);
    c.(open := false, enableRead := false, registerRead := reading, enableWrite := false, registerWrite := writing,
       closings := c.closings + [Closing(cause, |c.accepted| - |c.sent|, reading || writing)])
  }

  function Take(c: Conn, n: nat): Conn
    requires n <= |c.pending|
  {
    c.(sent := c.sent + c.pending[..n], pending := c.pending[n..])
  }

  /** sendInterval; the Boolean is its result. */
  function SendInterval(c: Conn, data: seq<byte>, r: SendResult): (Conn, bool)
    requires Possible(c.open, |c.pending| + |data|, r)
  {
    if data == [] then (c, true)
    else if !c.open then (c, false)
    else
      var d := c.(pending := c.pending + data, accepted := c.accepted + data);
      if d.enableWrite then (d, true)
      else match r
        case Sent(n) =>
          if n == 0 then (OnClose(d, Broken), false)
          else
            var e := Take(d, n);
            if e.pending != [] then (e.(enableWrite := true, registerWrite := true), true)
            else if e.shutdown then (OnClose(e, Graceful), true)
            else (e, true)
        case WouldBlock => (d.(enableWrite := true, registerWrite := true), true)
        case _ => (OnClose(d, Broken), false)
  }

  function OnWrite(c: Conn, r: SendResult): Conn
    requires Possible(c.open, |c.pending|, r)
  {
    if c.pending == [] then c.(enableWrite := false, registerWrite := false)
    else match r
      case Sent(n) =>
        if n == 0 then c
        else
          var d := Take(c, n);
          if d.pending != [] then d
          else
            var e := d.(enableWrite := false, registerWrite := false);
            if e.shutdown then OnClose(e, Graceful) else e
      case Failed => OnClose(c, Broken)
      case _ => c
  }

  function ShutdownAfterWrite(c: Conn): Conn
  {
    if c.pending == [] && !c.enableWrite then OnClose(c, Graceful) else c.(shutdown := true)
  }

  /** resumeRead, and pauseRead if `on` is false. */
  function SetReading(c: Conn, on: bool): Conn
  {
    if !on then c.(enableRead := false, registerRead := false)
    else if c.open then c.(enableRead := true, registerRead := true)
    else c
  }

  /** What holds between events: nothing is lost or reordered, an open socket with pending bytes has
      its write event registered, and a graceful close left nothing unsent. */
  predicate Inv(c: Conn)
  {
    && c.sent + c.pending == c.accepted
    && (c.enableWrite ==> c.registerWrite) && (c.enableRead ==> c.registerRead)
    && (c.open && c.pending != [] ==> c.registerWrite)
    && (forall i :: 0 <= i < |c.closings| && c.closings[i].cause.Graceful? ==> c.closings[i].unsent == 0)
  }

  lemma TakeKeeps(c: Conn, n: nat)
    requires n <= |c.pending| && c.sent + c.pending == c.accepted
    ensures Take(c, n).sent + Take(c, n).pending == c.accepted
  {
    assert c.pending == c.pending[..n] + c.pending[n..];
  }

  lemma SendKeeps(c: Conn, data: seq<byte>, r: SendResult)
    requires Inv(c) && Possible(c.open, |c.pending| + |data|, r)
    ensures Inv(SendInterval(c, data, r).0)
    ensures SendInterval(c, data, r).0.accepted == c.accepted + if c.open then data else []
  {
    if data != [] && c.open {
      var d := c.(pending := c.pending + data, accepted := c.accepted + data);
      assert d.sent + d.pending == d.accepted;
      if r.Sent? { TakeKeeps(d, r.n); }
    }
  }

  lemma WriteKeeps(c: Conn, r: SendResult)
    requires Inv(c) && Possible(c.open, |c.pending|, r)
    ensures Inv(OnWrite(c, r)) && OnWrite(c, r).accepted == c.accepted
  {
    if r.Sent? { TakeKeeps(c, r.n); }
  }

  /** Once a shutdown was asked for, the send or write event that drains the buffer closes the socket,
      with nothing left unsent. */
  lemma DrainingCloses(c: Conn, data: seq<byte>, r: SendResult)
    requires Inv(c) && c.open && c.shutdown && r.Sent?
    ensures var all := |c.pending| + |data|;
      data != [] && !c.enableWrite && r.n == all ==>
        SendInterval(c, data, r) == (OnClose(Take(c.(pending := c.pending + data, accepted := c.accepted + data), all), Graceful), true)
        && !SendInterval(c, data, r).0.open
    ensures c.pending != [] && r.n == |c.pending| ==>
      var d := OnWrite(c, r);
      !d.open && d.sent == c.accepted && d.closings == c.closings + [Closing(Graceful, 0, c.registerRead && !c.enableRead)]
  {
    TakeAll(c);
  }

  lemma TakeAll(c: Conn)
    requires Inv(c)
    ensures Take(c, |c.pending|).sent == c.accepted && Take(c, |c.pending|).pending == []
  {
    assert c.pending[..|c.pending|] == c.pending;
  }

  /** The result of a send: true means that all of the data was taken over, unless nothing was to be
      sent; false means that the connection is closed. It is false exactly if there was data and the
      connection was closed already, or offered it and the kernel refused for another reason than lack of
      room. */
  lemma SendResultMeans(c: Conn, data: seq<byte>, r: SendResult)
    requires Inv(c) && Possible(c.open, |c.pending| + |data|, r)
    ensures var (d, ok) := SendInterval(c, data, r);
      (ok ==> d.sent + d.pending == (c.sent + c.pending) + data) && (!ok ==> !d.open)
      && (ok && !d.open && c.open ==> d.pending == [] && d.sent == c.accepted + data)
    ensures !SendInterval(c, data, r).1 <==>
      data != [] && (!c.open || (!c.enableWrite && (r.Failed? || r.Interrupted? || r == Sent(0))))
  {
    SendKeeps(c, data, r);
  }

  /** What a send with data does to an open connection. The kernel is offered all that is pending unless
      writing was enabled, and gets what it answers, from the front. The connection stays open exactly if the
      result is true and it was not told to shut down and drained. If open, writing is enabled exactly while
      bytes are pending, and the write event is then registered. */
  lemma SendMoves(c: Conn, data: seq<byte>, r: SendResult)
    requires Inv(c) && Possible(c.open, |c.pending| + |data|, r) && c.open && data != []
    ensures var (d, ok) := SendInterval(c, data, r);
      var n := if !c.enableWrite && r.Sent? then r.n else 0;
      d.sent == c.sent + (c.pending + data)[..n] && d.pending == (c.pending + data)[n..]
    ensures var (d, ok) := SendInterval(c, data, r);
      (d.open <==> ok && !(c.shutdown && d.pending == []))
      && (d.open ==> d.enableWrite == (d.pending != []) && d.registerWrite == (c.registerWrite || d.pending != []))
      && (d.open ==> d.shutdown == c.shutdown && d.enableRead == c.enableRead && d.registerRead == c.registerRead)
    ensures var (d, ok) := SendInterval(c, data, r);
      d.closings == if d.open then c.closings
                    else c.closings + [Closing(if ok then Graceful else Broken, |d.pending|,
                                               (c.registerRead && !c.enableRead) || c.registerWrite)]
  {
    SendKeeps(c, data, r);
    var d := SendInterval(c, data, r).0;
    assert |d.accepted| == |d.sent| + |d.pending|;
  }

  /** What a write event does. The kernel gets what it answers, from the front. An open connection closes
      exactly if bytes were pending and the kernel failed, or took them all after a request to shut down; "would
      block" and "interrupted" change nothing. If open, writing stays enabled exactly while bytes are
      pending. */
  lemma WriteMoves(c: Conn, r: SendResult)
    requires Inv(c) && Possible(c.open, |c.pending|, r)
    ensures var d := OnWrite(c, r);
      var n := if r.Sent? then r.n else 0;
      d.sent == c.sent + c.pending[..n] && d.pending == c.pending[n..]
    ensures var d := OnWrite(c, r);
      (c.open ==> (!d.open <==> c.pending != [] && (r.Failed? || (c.shutdown && r == Sent(|c.pending|)))))
      && (d.open ==> d.enableWrite == (c.enableWrite && d.pending != []) && d.registerWrite == (c.registerWrite && d.pending != []))
      && (d.open ==> d.shutdown == c.shutdown && d.enableRead == c.enableRead && d.registerRead == c.registerRead)
    ensures var d := OnWrite(c, r);
      c.open ==>
        d.closings == if d.open then c.closings
                      else c.closings + [Closing(if r.Failed? then Broken else Graceful, |d.pending|,
                                                 (c.registerRead && !c.enableRead) || (r.Failed? && c.registerWrite && !c.enableWrite))]
  {
    WriteKeeps(c, r);
    var d := OnWrite(c, r);
    assert |d.accepted| == |d.sent| + |d.pending|;
  }

  /** A request to shut down closes gracefully, with nothing unsent, or is remembered; nothing else changes
      for an open connection. */
  lemma ShutdownMeans(c: Conn)
    requires Inv(c) && c.open
    ensures var d := ShutdownAfterWrite(c);
      if d.open then d == c.(shutdown := true)
      else d.sent == c.accepted && d.closings == c.closings + [Closing(Graceful, 0, (c.registerRead && !c.enableRead) || c.registerWrite)]
  {}

  /** After a pause nothing is read or registered for reading, after a resume both if the socket is open;
      writing is not touched. */
  lemma ReadingSwitched(c: Conn, on: bool)
    requires Inv(c)
    ensures var d := SetReading(c, on);
      (on && c.open ==> d.enableRead && d.registerRead) && (!on ==> !d.enableRead && !d.registerRead)
      && d.(enableRead := c.enableRead, registerRead := c.registerRead) == c
  {}

  // ---------- the event loop ----------

  /** What another thread hands to the loop. */
  datatype Task = SendTask(thread: nat, data: seq<byte>) | ShutdownTask(thread: nat) | ReadTask(thread: nat, on: bool)

  /** A payload the buffer took, with the thread it came from; 0 is the loop's own thread. */
  datatype Payload = Payload(thread: nat, data: seq<byte>)

  /** `registered` and `executed` record all tasks ever handed over and run; `batch` is what
      doOtherTasks swapped out and has not run yet. */
  datatype Loop = Loop(conn: Conn, queue: seq<Task>, batch: seq<Task>,
                       registered: seq<Task>, executed: seq<Task>, taken: seq<Payload>)

  const Start := Loop(Fresh, [], [], [], [], [])

  datatype Step =
    | Register(task: Task)
    | Swap
    | RunTask(r: SendResult)
    | OwnSend(data: seq<byte>, r: SendResult)
    | OwnShutdown
    | OwnReading(on: bool)
    | WriteEvent(r: SendResult)
    | Flip(enable: bool)
    | FlipRead(enable: bool)
    | PeerCloses

  /** The multiplexer flips m_enableRead and m_enableWrite as it likes, but raises them only where the
      event is registered. */
  predicate Enabled(l: Loop, s: Step)
  {
    match s
    case Register(t) => t.thread != 0
    case Swap => l.batch == []
    case RunTask(r) =>
      l.batch != [] && (l.batch[0].SendTask? ==> Possible(l.conn.open, |l.conn.pending| + |l.batch[0].data|, r))
    case OwnSend(data, r) => Possible(l.conn.open, |l.conn.pending| + |data|, r)
    case OwnShutdown => true
    case OwnReading(_) => true
    case WriteEvent(r) => Possible(l.conn.open, |l.conn.pending|, r)
    case Flip(enable) => enable ==> l.conn.registerWrite
    case FlipRead(enable) => enable ==> l.conn.registerRead
    case PeerCloses => l.conn.open
  }

  function Send(l: Loop, thread: nat, data: seq<byte>, r: SendResult): Loop
    requires Possible(l.conn.open, |l.conn.pending| + |data|, r)
  {
    l.(conn := SendInterval(l.conn, data, r).0,
       taken := if data != [] && l.conn.open then l.taken + [Payload(thread, data)] else l.taken)
  }

  function Apply(l: Loop, s: Step): Loop
    requires Enabled(l, s)
  {
    match s
    case Register(t) => l.(queue := l.queue + [t], registered := l.registered + [t])
    case Swap => l.(batch := l.queue, queue := [])
    case RunTask(r) =>
      var t := l.batch[0];
      var k := l.(batch := l.batch[1..], executed := l.executed + [t]);
      if t.SendTask? then Send(k, t.thread, t.data, r)
      else k.(conn := if t.ShutdownTask? then ShutdownAfterWrite(k.conn) else SetReading(k.conn, t.on))
    case OwnSend(data, r) => Send(l, 0, data, r)
    case OwnShutdown => l.(conn := ShutdownAfterWrite(l.conn))
    case OwnReading(on) => l.(conn := SetReading(l.conn, on))
    case WriteEvent(r) => l.(conn := OnWrite(l.conn, r))
    case Flip(enable) => l.(conn := l.conn.(enableWrite := enable))
    case FlipRead(enable) => l.(conn := l.conn.(enableRead := enable))
    case PeerCloses => l.(conn := OnClose(l.conn, ByPeer))
  }

  predicate AllEnabled(l: Loop, steps: seq<Step>)
    decreases |steps|
  {
    steps == [] || (Enabled(l, steps[0]) && AllEnabled(Apply(l, steps[0]), steps[1..]))
  }

  function Run(l: Loop, steps: seq<Step>): Loop
    requires AllEnabled(l, steps)
    decreases |steps|
  {
    if steps == [] then l else Run(Apply(l, steps[0]), steps[1..])
  }

  function Concat(ps: seq<Payload>): seq<byte>
  {
    if ps == [] then [] else Concat(ps[..|ps| - 1]) + ps[|ps| - 1].data
  }

  /** The payloads thread t handed over, in its program order. */
  function SendsOf(tasks: seq<Task>, t: nat): seq<seq<byte>>
  {
    if tasks == [] then []
    else
      var last := tasks[|tasks| - 1];
      SendsOf(tasks[..|tasks| - 1], t) + if last.SendTask? && last.thread == t && last.data != [] then [last.data] else []
  }

  function TakenFrom(ps: seq<Payload>, t: nat): seq<seq<byte>>
  {
    if ps == [] then []
    else TakenFrom(ps[..|ps| - 1], t) + if ps[|ps| - 1].thread == t then [ps[|ps| - 1].data] else []
  }

  /** Tasks run once each in registration order, and the buffer took exactly the recorded payloads. */
  predicate Ordered(l: Loop)
  {
    && l.executed + l.batch + l.queue == l.registered
    && l.conn.accepted == Concat(l.taken)
  }

  /** The payloads taken from a foreign thread are the ones it handed over, in order, up to the point
      where the socket closed. */
  predicate InOrder(l: Loop, t: nat)
  {
    TakenFrom(l.taken, t) <= SendsOf(l.executed, t)
    && (l.conn.open ==> TakenFrom(l.taken, t) == SendsOf(l.executed, t))
  }

  lemma OneMore(ps: seq<Payload>, p: Payload, t: nat)
    ensures Concat(ps + [p]) == Concat(ps) + p.data
    ensures TakenFrom(ps + [p], t) == TakenFrom(ps, t) + if p.thread == t then [p.data] else []
  {
    assert (ps + [p])[..|ps|] == ps;
  }

  lemma OneMoreTask(tasks: seq<Task>, x: Task, t: nat)
    ensures SendsOf(tasks + [x], t) ==
      SendsOf(tasks, t) + if x.SendTask? && x.thread == t && x.data != [] then [x.data] else []
  {
    assert (tasks + [x])[..|tasks|] == tasks;
  }

  lemma ConnKept(l: Loop, s: Step)
    requires Inv(l.conn) && Enabled(l, s)
    ensures Inv(Apply(l, s).conn)
  {
    hide OnWrite, SendInterval;
    match s
    case RunTask(r) => if l.batch[0].SendTask? { SendKeeps(l.conn, l.batch[0].data, r); }
    case OwnSend(data, r) => SendKeeps(l.conn, data, r);
    case WriteEvent(r) => WriteKeeps(l.conn, r);
    case _ =>
  }

  lemma StaysClosed(l: Loop, s: Step)
    requires Enabled(l, s)
    ensures Apply(l, s).conn.open ==> l.conn.open
  {}

  lemma OrderKept(l: Loop, s: Step)
    requires Inv(l.conn) && Ordered(l) && Enabled(l, s)
    ensures Ordered(Apply(l, s))
  {
    hide SendInterval, OnWrite, Inv;
    match s
    case RunTask(r) =>
      var x := l.batch[0];
      assert l.executed + [x] + l.batch[1..] + l.queue == l.executed + l.batch + l.queue;
      if x.SendTask? { SendKeeps(l.conn, x.data, r); OneMore(l.taken, Payload(x.thread, x.data), 0); }
    case OwnSend(data, r) => SendKeeps(l.conn, data, r); OneMore(l.taken, Payload(0, data), 0);
    case WriteEvent(r) => WriteKeeps(l.conn, r);
    case _ =>
  }

  lemma InOrderKept(l: Loop, s: Step, t: nat)
    requires Inv(l.conn) && InOrder(l, t) && Enabled(l, s) && t != 0
    ensures InOrder(Apply(l, s), t)
  {
    StaysClosed(l, s);
    match s
    case RunTask(r) =>
      var x := l.batch[0];
      OneMoreTask(l.executed, x, t);
      if x.SendTask? { OneMore(l.taken, Payload(x.thread, x.data), t); }
    case OwnSend(data, r) => OneMore(l.taken, Payload(0, data), t);
    case _ =>
  }

  lemma {:induction false} SendsOfPrefix(tasks: seq<Task>, more: seq<Task>, t: nat)
    ensures SendsOf(tasks, t) <= SendsOf(tasks + more, t)
    decreases |more|
  {
    if more != [] {
      var n := |more| - 1;
      assert tasks + more == (tasks + more[..n]) + [more[n]];
      SendsOfPrefix(tasks, more[..n], t);
      OneMoreTask(tasks + more[..n], more[n], t);
    } else {
      assert tasks + more == tasks;
    }
  }

  lemma {:induction false} RunKeeps(l: Loop, steps: seq<Step>, t: nat)
    requires AllEnabled(l, steps) && Inv(l.conn) && Ordered(l) && t != 0 && InOrder(l, t)
    ensures var k := Run(l, steps); Inv(k.conn) && Ordered(k) && InOrder(k, t)
    decreases |steps|
  {
    if steps != [] {
      ConnKept(l, steps[0]);
      OrderKept(l, steps[0]);
      InOrderKept(l, steps[0], t);
      RunKeeps(Apply(l, steps[0]), steps[1..], t);
    }
  }

  /** For every schedule of sends from any thread, partial and refused writes, write events, flips of
      m_enableWrite and closes: the bytes sent followed by the bytes pending are exactly the payloads
      taken, in order; the tasks of other threads have run once each in the order they were handed
      over; and what was taken from one foreign thread is a prefix of its sends in program order. */
  lemma OutputStream(steps: seq<Step>, t: nat)
    requires AllEnabled(Start, steps) && t != 0
    ensures var l := Run(Start, steps);
      l.conn.sent + l.conn.pending == Concat(l.taken)
      && l.executed + l.batch + l.queue == l.registered
      && TakenFrom(l.taken, t) <= SendsOf(l.registered, t)
  {
    RunKeeps(Start, steps, t);
    var l := Run(Start, steps);
    assert l.registered == l.executed + (l.batch + l.queue);
    SendsOfPrefix(l.executed, l.batch + l.queue, t);
  }

  /** Between events no output is stranded, and a close that shutdownAfterWrite caused lost nothing. */
  lemma NothingStranded(steps: seq<Step>)
    requires AllEnabled(Start, steps)
    ensures var c := Run(Start, steps).conn;
      (c.open && c.pending != [] ==> c.registerWrite)
      && forall i :: 0 <= i < |c.closings| && c.closings[i].cause.Graceful? ==> c.closings[i].unsent == 0
  {
    RunKeeps(Start, steps, 1);
  }

  /** What another thread asks for is done to the connection as if the loop's own thread had asked. */
  lemma ForeignAsOwn(l: Loop, r: SendResult)
    requires Enabled(l, RunTask(r))
    ensures var t := l.batch[0];
      var own := if t.SendTask? then OwnSend(t.data, r) else if t.ShutdownTask? then OwnShutdown else OwnReading(t.on);
      Enabled(l, own) && Apply(l, RunTask(r)).conn == Apply(l, own).conn
  {}

  // ---------- connections do not break without a reason ----------

  /** A step in which the kernel does not fail, the peer does not close and nobody asks for a shutdown. */
  predicate Healthy(s: Step)
  {
    match s
    case Register(t) => !t.ShutdownTask?
    case RunTask(r) => r.WouldBlock? || (r.Sent? && r.n > 0)
    case OwnSend(_, r) => r.WouldBlock? || (r.Sent? && r.n > 0)
    case WriteEvent(r) => !r.Failed?
    case OwnShutdown => false
    case PeerCloses => false
    case _ => true
  }

  predicate Thriving(l: Loop)
  {
    && l.conn.open && !l.conn.shutdown && l.conn.closings == []
    && (forall i :: 0 <= i < |l.queue| ==> !l.queue[i].ShutdownTask?)
    && (forall i :: 0 <= i < |l.batch| ==> !l.batch[i].ShutdownTask?)
  }

  lemma HealthyKeeps(l: Loop, s: Step)
    requires Inv(l.conn) && Thriving(l) && Enabled(l, s) && Healthy(s)
    ensures Thriving(Apply(l, s))
  {
    hide SendInterval, OnWrite, Inv;
    match s
    case RunTask(r) => if l.batch[0].SendTask? { HealthySend(l.conn, l.batch[0].data, r); }
    case OwnSend(data, r) => HealthySend(l.conn, data, r);
    case WriteEvent(r) => WriteMoves(l.conn, r);
    case _ =>
  }

  lemma HealthySend(c: Conn, data: seq<byte>, r: SendResult)
    requires Inv(c) && Possible(c.open, |c.pending| + |data|, r)
    requires c.open && !c.shutdown && (r.WouldBlock? || (r.Sent? && r.n > 0))
    ensures var d := SendInterval(c, data, r).0; d.open && !d.shutdown && d.closings == c.closings
  {}

  lemma {:induction false} HealthyStays(l: Loop, steps: seq<Step>)
    requires Inv(l.conn) && Thriving(l) && AllEnabled(l, steps) && forall i :: 0 <= i < |steps| ==> Healthy(steps[i])
    ensures Thriving(Run(l, steps))
    decreases |steps|
  {
    hide Enabled, Apply, Thriving, Healthy, Inv;
    if steps != [] {
      HealthyKeeps(l, steps[0]);
      ConnKept(l, steps[0]);
      HealthyStays(Apply(l, steps[0]), steps[1..]);
    }
  }

  /** In every run of such steps, whatever the partial sends, refusals for lack of room and interruptions, the
      connection is never closed and every payload of every thread is sent or pending. */
  lemma NeverBreaks(steps: seq<Step>, t: nat)
    requires AllEnabled(Start, steps) && t != 0 && forall i :: 0 <= i < |steps| ==> Healthy(steps[i])
    ensures var l := Run(Start, steps);
      l.conn.open && l.conn.closings == []
      && l.conn.sent + l.conn.pending == Concat(l.taken) && TakenFrom(l.taken, t) == SendsOf(l.executed, t)
  {
    HealthyStays(Start, steps);
    RunKeeps(Start, steps, t);
  }

  // ---------- a forgotten shutdown ----------

  /** Told to shut down, drained and still open, with no write event that would close it. */
  predicate Forgotten(c: Conn)
  {
    c.open && c.shutdown && c.pending == [] && !c.registerWrite
  }

  /** Closed, or going to be closed by the event that drains it. */
  predicate Doomed(c: Conn)
  {
    c.open ==> c.shutdown && c.pending != []
  }

  lemma SendDooms(c: Conn, data: seq<byte>, r: SendResult)
    requires Doomed(c) && Possible(c.open, |c.pending| + |data|, r)
    ensures Doomed(SendInterval(c, data, r).0)
  {}

  lemma WriteDooms(c: Conn, r: SendResult)
    requires Doomed(c) && Possible(c.open, |c.pending|, r)
    ensures Doomed(OnWrite(c, r))
  {}

  lemma DoomedKept(l: Loop, s: Step)
    requires Doomed(l.conn) && Enabled(l, s)
    ensures Doomed(Apply(l, s).conn)
  {
    hide SendInterval, OnWrite;
    match s
    case RunTask(r) => if l.batch[0].SendTask? { SendDooms(l.conn, l.batch[0].data, r); }
    case OwnSend(data, r) => SendDooms(l.conn, data, r);
    case WriteEvent(r) => WriteDooms(l.conn, r);
    case _ =>
  }

  lemma {:induction false} DoomedStays(l: Loop, steps: seq<Step>)
    requires Doomed(l.conn) && AllEnabled(l, steps)
    ensures Doomed(Run(l, steps).conn)
    decreases |steps|
  {
    hide Enabled, Apply, Doomed;
    if steps != [] {
      DoomedKept(l, steps[0]);
      DoomedStays(Apply(l, steps[0]), steps[1..]);
    }
  }

  /** When a request to shut down can be forgotten: over all schedules that follow it, some run ends with
      the connection open, drained and without write interest exactly if the request came when nothing was
      pending but m_enableWrite was up. The run is then the next write event, which takes the interest back
      without looking at the request. */
  lemma ShutdownForgottenIff(l: Loop)
    requires l.conn.open
    ensures (exists steps :: AllEnabled(Apply(l, OwnShutdown), steps) && Forgotten(Run(Apply(l, OwnShutdown), steps).conn))
            <==> l.conn.pending == [] && l.conn.enableWrite
  {
    var k := Apply(l, OwnShutdown);
    if l.conn.pending == [] && l.conn.enableWrite {
      assert [WriteEvent(WouldBlock)] == [WriteEvent(WouldBlock)] + [];
      RunsTo(k, WriteEvent(WouldBlock), []);
      var d := Apply(k, WriteEvent(WouldBlock));
      assert Forgotten(Run(d, []).conn) && AllEnabled(d, []);
      assert AllEnabled(k, [WriteEvent(WouldBlock)]) && Forgotten(Run(k, [WriteEvent(WouldBlock)]).conn);
    } else {
      forall steps | AllEnabled(k, steps) ensures !Forgotten(Run(k, steps).conn) {
        DoomedStays(k, steps);
      }
    }
  }

  /** Such a request can come: the multiplexer lowers m_enableWrite while bytes are pending, a send then
      drains them past the registered write event, and the event raises the flag again. */
  lemma DrainedWithEventPending()
    ensures var steps := [OwnSend([1], WouldBlock), Flip(false), OwnSend([2], Sent(2)), Flip(true)];
      AllEnabled(Start, steps)
      && var c := Run(Start, steps).conn; c.open && c.pending == [] && c.enableWrite && c.sent == [1, 2]
  {
    hide Apply, Enabled;
    StagesFollow();
    RunsTo(Start, OwnSend([1], WouldBlock), [Flip(false), OwnSend([2], Sent(2)), Flip(true)]);
    RunsTo(Stage(1), Flip(false), [OwnSend([2], Sent(2)), Flip(true)]);
    RunsTo(Stage(2), OwnSend([2], Sent(2)), [Flip(true)]);
    RunsTo(Stage(3), Flip(true), []);
  }

  /** The states of that run. */
  function Stage(k: nat): Loop
  {
    var c := Fresh.(registerWrite := true, enableWrite := k <= 1 || k >= 4);
    if k <= 2 then Start.(conn := c.(pending := [1], accepted := [1]), taken := [Payload(0, [1])])
    else Start.(conn := c.(sent := [1, 2], accepted := [1, 2]), taken := [Payload(0, [1]), Payload(0, [2])])
  }

  lemma StagesFollow()
    ensures Enabled(Start, OwnSend([1], WouldBlock)) && Apply(Start, OwnSend([1], WouldBlock)) == Stage(1)
    ensures Enabled(Stage(1), Flip(false)) && Apply(Stage(1), Flip(false)) == Stage(2)
    ensures Enabled(Stage(2), OwnSend([2], Sent(2))) && Apply(Stage(2), OwnSend([2], Sent(2))) == Stage(3)
    ensures Enabled(Stage(3), Flip(true)) && Apply(Stage(3), Flip(true)) == Stage(4)
  {
    var all: seq<byte> := [1, 2];
    assert all[..2] == all && all[2..] == [];
  }

  lemma RunsTo(l: Loop, s: Step, rest: seq<Step>)
    requires Enabled(l, s)
    ensures AllEnabled(l, [s] + rest) <==> AllEnabled(Apply(l, s), rest)
    ensures AllEnabled(Apply(l, s), rest) ==> Run(l, [s] + rest) == Run(Apply(l, s), rest)
  {
    assert ([s] + rest)[1..] == rest;
  }

  // ---------- interest left behind ----------

  /** A step with which the multiplexer lowers a flag. */
  predicate Lowers(s: Step)
  {
    (s.Flip? || s.FlipRead?) && !s.enable
  }

  /** Whatever is registered is enabled, and no close left anything registered. */
  predicate Clean(c: Conn)
  {
    && (c.registerRead ==> c.enableRead) && (c.registerWrite ==> c.enableWrite)
    && (forall i :: 0 <= i < |c.closings| ==> !c.closings[i].leaves)
  }

  lemma CloseClean(c: Conn, cause: Cause)
    requires Clean(c)
    ensures Clean(OnClose(c, cause)) && Clean(ShutdownAfterWrite(c)) && Clean(SetReading(c, true)) && Clean(SetReading(c, false))
  {}

  lemma SendClean(c: Conn, data: seq<byte>, r: SendResult)
    requires Clean(c) && Possible(c.open, |c.pending| + |data|, r)
    ensures Clean(SendInterval(c, data, r).0)
  {
    hide OnClose;
    var d := c.(pending := c.pending + data, accepted := c.accepted + data);
    CloseClean(d, Broken);
    if data != [] && c.open && r.Sent? { CloseClean(Take(d, r.n), Graceful); }
  }

  lemma WriteClean(c: Conn, r: SendResult)
    requires Clean(c) && Possible(c.open, |c.pending|, r)
    ensures Clean(OnWrite(c, r))
  {
    hide OnClose;
    CloseClean(c, Broken);
    if r.Sent? { CloseClean(Take(c, r.n).(enableWrite := false, registerWrite := false), Graceful); }
  }

  lemma RaiseClean(c: Conn, write: bool, read: bool)
    requires Clean(c)
    ensures Clean(c.(enableWrite := c.enableWrite || write, enableRead := c.enableRead || read))
  {}

  lemma CleanKept(l: Loop, s: Step)
    requires Clean(l.conn) && Enabled(l, s) && !Lowers(s)
    ensures Clean(Apply(l, s).conn)
  {
    hide Clean, OnClose, SendInterval, OnWrite, ShutdownAfterWrite, SetReading;
    CloseClean(l.conn, ByPeer);
    RaiseClean(l.conn, s.Flip?, s.FlipRead?);
    match s
    case RunTask(r) => if l.batch[0].SendTask? { SendClean(l.conn, l.batch[0].data, r); }
    case OwnSend(data, r) => SendClean(l.conn, data, r);
    case WriteEvent(r) => WriteClean(l.conn, r);
    case _ =>
  }

  /** A multiplexer that only raises flags, as Poll does: no close leaves interest registered. */
  lemma {:induction false} CleanStays(l: Loop, steps: seq<Step>)
    requires Clean(l.conn) && AllEnabled(l, steps) && forall i :: 0 <= i < |steps| ==> !Lowers(steps[i])
    ensures Clean(Run(l, steps).conn)
    decreases |steps|
  {
    hide Enabled, Apply, Clean, Lowers;
    if steps != [] {
      CleanKept(l, steps[0]);
      CleanStays(Apply(l, steps[0]), steps[1..]);
    }
  }

  /** With one that lowers them, as Select and Epoll do, a close can: the peer closes while a flag is down,
      and a graceful close leaves the read interest behind when the write event came alone. */
  lemma ClosesLeaveInterest()
    ensures var steps := [OwnSend([1], WouldBlock), Flip(false), PeerCloses];
      AllEnabled(Start, steps) && Run(Start, steps).conn.closings == [Closing(ByPeer, 1, true)]
    ensures var steps := [OwnReading(true), OwnSend([1], WouldBlock), OwnShutdown, FlipRead(false), WriteEvent(Sent(1))];
      AllEnabled(Start, steps) && Run(Start, steps).conn.closings == [Closing(Graceful, 0, true)]
  {
    PeerClosesEarly();
    WriteEventAlone();
  }

  lemma PeerClosesEarly()
    ensures var steps := [OwnSend([1], WouldBlock), Flip(false), PeerCloses];
      AllEnabled(Start, steps) && Run(Start, steps).conn.closings == [Closing(ByPeer, 1, true)]
  {
    var a := Apply(Start, OwnSend([1], WouldBlock));
    var b := Apply(a, Flip(false));
    RunsTo(Start, OwnSend([1], WouldBlock), [Flip(false), PeerCloses]);
    RunsTo(a, Flip(false), [PeerCloses]);
    RunsTo(b, PeerCloses, []);
  }

  lemma WriteEventAlone()
    ensures var steps := [OwnReading(true), OwnSend([1], WouldBlock), OwnShutdown, FlipRead(false), WriteEvent(Sent(1))];
      AllEnabled(Start, steps) && Run(Start, steps).conn.closings == [Closing(Graceful, 0, true)]
  {
    hide Apply, Enabled;
    AloneFollow();
    RunsTo(Start, OwnReading(true), [OwnSend([1], WouldBlock), OwnShutdown, FlipRead(false), WriteEvent(Sent(1))]);
    RunsTo(Alone(1), OwnSend([1], WouldBlock), [OwnShutdown, FlipRead(false), WriteEvent(Sent(1))]);
    RunsTo(Alone(2), OwnShutdown, [FlipRead(false), WriteEvent(Sent(1))]);
    RunsTo(Alone(3), FlipRead(false), [WriteEvent(Sent(1))]);
    RunsTo(Alone(4), WriteEvent(Sent(1)), []);
  }

  /** The states of the second run. */
  function Alone(k: nat): Loop
  {
    var c := Fresh.(enableRead := k <= 3, registerRead := true, shutdown := k >= 3);
    if k <= 1 then Start.(conn := c)
    else if k <= 4 then
      Start.(conn := c.(enableWrite := true, registerWrite := true, pending := [1], accepted := [1]), taken := [Payload(0, [1])])
    else
      Start.(conn := c.(open := false, sent := [1], accepted := [1], closings := [Closing(Graceful, 0, true)]),
             taken := [Payload(0, [1])])
  }

  lemma AloneFollow()
    ensures Enabled(Start, OwnReading(true)) && Apply(Start, OwnReading(true)) == Alone(1)
    ensures Enabled(Alone(1), OwnSend([1], WouldBlock)) && Apply(Alone(1), OwnSend([1], WouldBlock)) == Alone(2)
    ensures Enabled(Alone(2), OwnShutdown) && Apply(Alone(2), OwnShutdown) == Alone(3)
    ensures Enabled(Alone(3), FlipRead(false)) && Apply(Alone(3), FlipRead(false)) == Alone(4)
    ensures Enabled(Alone(4), WriteEvent(Sent(1))) && Apply(Alone(4), WriteEvent(Sent(1))) == Alone(5)
  {
    var one: seq<byte> := [1];
    assert one[..1] == one && one[1..] == [];
  }
}
