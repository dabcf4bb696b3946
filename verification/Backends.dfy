/** The three multiplexers side by side. */
module Backends {
  import opened InterestMap
  import P = Poll
  import S = Select
  import E = Epoll

  lemma {:induction false} StaysNonEmpty(t: Table, calls: seq<Call>)
    requires NonEmpty(t)
    ensures NonEmpty(Run(t, calls))
    decreases |calls|
  {
    if calls != [] { StaysNonEmpty(Apply(t, calls[0]), calls[1..]); }
  }

  lemma {:induction false} KeepsAt(t: Table, calls: seq<Call>, i: nat)
    requires AllKeep(t, calls) && i < |calls|
    ensures KeepsDispatcher(Run(t, calls[..i]), calls[i])
    decreases i
  {
    if i > 0 {
      assert calls[..i][1..] == calls[1..][..i - 1];
      KeepsAt(Apply(t, calls[0]), calls[1..], i - 1);
    }
  }

  /** One call to all three. */
  method Call(p: P.Poll, s: S.Select, e: E.Epoll, c: Call)
    requires p.Valid() && s.Valid() && e.Valid() && 0 <= c.fd < S.FD_SETSIZE
    requires NonEmpty(e.Table()) && KeepsDispatcher(e.Table(), c)
    modifies p, s, e
    ensures p.Valid() && s.Valid() && e.Valid()
    ensures p.Table() == Apply(old(p.Table()), c)
    ensures s.Table() == Apply(old(s.Table()), c)
    ensures e.Table() == Apply(old(e.Table()), c)
  {
    E.AgreesIff(e.Table(), c);
    match c
    case RegisterRead(fd, d) => p.RegisterReadEvent(fd, d); s.RegisterReadEvent(fd, d); e.RegisterReadEvent(fd, d);
    case RegisterWrite(fd, d) => p.RegisterWriteEvent(fd, d); s.RegisterWriteEvent(fd, d); e.RegisterWriteEvent(fd, d);
    case UnregisterRead(fd, d) => p.UnregisterReadEvent(fd, d); s.UnregisterReadEvent(fd, d); e.UnregisterReadEvent(fd, d);
    case UnregisterWrite(fd, d) => p.UnregisterWriteEvent(fd, d); s.UnregisterWriteEvent(fd, d); e.UnregisterWriteEvent(fd, d);
    case UnregisterAll(fd, d) => p.UnregisterAllEvent(fd, d); s.UnregisterAllEvent(fd, d); e.UnregisterAllEvent(fd, d);
  }

  /** Backend equivalence: after any sequence of calls in which a descriptor keeps its dispatcher while
      registered, the three hold the same table, and Epoll never crashed on the way. */
  method RunAll(calls: seq<Call>) returns (p: P.Poll, s: S.Select, e: E.Epoll)
    requires AllKeep(map[], calls)
    requires forall i :: 0 <= i < |calls| ==> 0 <= calls[i].fd < S.FD_SETSIZE
    ensures p.Valid() && s.Valid() && e.Valid()
    ensures p.Table() == s.Table() == e.Table() == Run(map[], calls)
  {
    hide P.TableOf, P.Proper, E.TableOf, E.Mirrors, KeepsDispatcher, NonEmpty, Apply;
    p := new P.Poll();
    s := new S.Select();
    e := new E.Epoll();
    for i := 0 to |calls|
      invariant p.Valid() && s.Valid() && e.Valid()
      invariant p.Table() == s.Table() == e.Table() == Run(map[], calls[..i])
    {
      StaysNonEmpty(map[], calls[..i]);
      KeepsAt(map[], calls, i);
      Call(p, s, e, calls[i]);
      RunAppend(map[], calls[..i], calls[i]);
      assert calls[..i + 1] == calls[..i] + [calls[i]];
    }
    assert calls[..|calls|] == calls;
  }
}
