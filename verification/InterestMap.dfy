/** What the three multiplexers keep: for each registered descriptor whether reading and writing are
    wanted (at least one of them) and the dispatcher to call. */
module InterestMap {
  type Fd = int
  /** Dispatchers are compared only by identity. */
  type Dispatcher = nat

  datatype Interest = Interest(read: bool, write: bool, dispatcher: Dispatcher)

  type Table = map<Fd, Interest>

  datatype Call =
    | RegisterRead(fd: Fd, dispatcher: Dispatcher)
    | RegisterWrite(fd: Fd, dispatcher: Dispatcher)
    | UnregisterRead(fd: Fd, dispatcher: Dispatcher)
    | UnregisterWrite(fd: Fd, dispatcher: Dispatcher)
    | UnregisterAll(fd: Fd, dispatcher: Dispatcher)

  function Put(t: Table, fd: Fd, read: bool, write: bool, dispatcher: Dispatcher): Table
  {
    if read || write then t[fd := Interest(read, write, dispatcher)] else t - {fd}
  }

  function Apply(t: Table, c: Call): Table
  {
    var fd := c.fd;
    var known := fd in t;
    match c
    case RegisterRead(_, d) => Put(t, fd, true, known && t[fd].write, d)
    case RegisterWrite(_, d) => Put(t, fd, known && t[fd].read, true, d)
    case UnregisterRead(_, _) => if known then Put(t, fd, false, t[fd].write, t[fd].dispatcher) else t
    case UnregisterWrite(_, _) => if known then Put(t, fd, t[fd].read, false, t[fd].dispatcher) else t
    case UnregisterAll(_, _) => t - {fd}
  }

  /** While registered, a descriptor keeps its dispatcher. */
  predicate KeepsDispatcher(t: Table, c: Call)
  {
    c.fd in t ==> t[c.fd].dispatcher == c.dispatcher
  }

  function Run(t: Table, calls: seq<Call>): Table
    decreases |calls|
  {
    if calls == [] then t else Run(Apply(t, calls[0]), calls[1..])
  }

  predicate AllKeep(t: Table, calls: seq<Call>)
    decreases |calls|
  {
    calls == [] || (KeepsDispatcher(t, calls[0]) && AllKeep(Apply(t, calls[0]), calls[1..]))
  }

  lemma {:induction false} RunAppend(t: Table, calls: seq<Call>, c: Call)
    ensures Run(t, calls + [c]) == Apply(Run(t, calls), c)
    decreases |calls|
  {
    if calls == [] {
      assert Run(Apply(t, c), [c][1..]) == Apply(t, c);
    } else {
      assert (calls + [c])[1..] == calls[1..] + [c];
      RunAppend(Apply(t, calls[0]), calls[1..], c);
    }
  }

  predicate NonEmpty(t: Table)
  {
    forall fd :: fd in t ==> t[fd].read || t[fd].write
  }

  // ---------- the table told from the history alone ----------

  /** Whether the last call about reading on fd asked for it. */
  predicate ReadWanted(calls: seq<Call>, fd: Fd)
  {
    calls != [] &&
    var c := calls[|calls| - 1];
    if c.fd == fd && !c.RegisterWrite? && !c.UnregisterWrite? then c.RegisterRead?
    else ReadWanted(calls[..|calls| - 1], fd)
  }

  predicate WriteWanted(calls: seq<Call>, fd: Fd)
  {
    calls != [] &&
    var c := calls[|calls| - 1];
    if c.fd == fd && !c.RegisterRead? && !c.UnregisterRead? then c.RegisterWrite?
    else WriteWanted(calls[..|calls| - 1], fd)
  }

  /** The dispatcher of the last register call for fd. */
  function LastDispatcher(calls: seq<Call>, fd: Fd): Dispatcher
  {
    if calls == [] then 0
    else
      var c := calls[|calls| - 1];
      if c.fd == fd && (c.RegisterRead? || c.RegisterWrite?) then c.dispatcher
      else LastDispatcher(calls[..|calls| - 1], fd)
  }

  /** A descriptor is in the table exactly when reading or writing was asked for and not taken back,
      with exactly that interest and the dispatcher registered last. */
  lemma {:induction false} TableIsHistory(calls: seq<Call>, fd: Fd)
    ensures var t := Run(map[], calls);
      (fd in t <==> ReadWanted(calls, fd) || WriteWanted(calls, fd))
      && (fd in t ==> t[fd] == Interest(ReadWanted(calls, fd), WriteWanted(calls, fd), LastDispatcher(calls, fd)))
    decreases |calls|
  {
    if calls != [] {
      var n := |calls| - 1;
      TableIsHistory(calls[..n], fd);
      assert calls == calls[..n] + [calls[n]];
      RunAppend(map[], calls[..n], calls[n]);
    }
  }
}
