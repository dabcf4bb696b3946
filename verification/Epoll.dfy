/** net/Epoll.{h,cpp}, Linux branches: the register and unregister calls over a map of flags that
    mirrors the kernel's interest list. */
module Epoll {
  import opened InterestMap

  const EPOLLIN: bv32 := 0x001
  const EPOLLOUT: bv32 := 0x004

  datatype Operation = CtlAdd | CtlMod | CtlDel

  /** What the kernel holds for a descriptor: the events and `data.ptr`. */
  datatype Registration = Registration(events: bv32, dispatcher: Dispatcher)

  predicate Meaningful(e: bv32)
  {
    e == EPOLLIN || e == EPOLLOUT || e == EPOLLIN | EPOLLOUT
  }

  /** epoll_ctl refuses to add a descriptor twice and to modify or delete an absent one. */
  predicate Legal(kernel: map<Fd, Registration>, op: Operation, fd: Fd)
  {
    if op.CtlAdd? then fd !in kernel else fd in kernel
  }

  function Ctl(kernel: map<Fd, Registration>, op: Operation, fd: Fd, r: Registration): map<Fd, Registration>
  {
    if op.CtlDel? then kernel - {fd} else kernel[fd := r]
  }

  /** The flags mirror the kernel's list exactly, and no entry has empty flags. */
  predicate Mirrors(flags: map<Fd, bv32>, kernel: map<Fd, Registration>)
  {
    && flags.Keys == kernel.Keys
    && (forall fd :: fd in flags ==> flags[fd] == kernel[fd].events && Meaningful(flags[fd]))
  }

  /** What is left of that when descriptors were closed while they had flags: the kernel has dropped them. */
  predicate Covers(flags: map<Fd, bv32>, kernel: map<Fd, Registration>)
  {
    && kernel.Keys <= flags.Keys
    && (forall fd :: fd in flags ==> Meaningful(flags[fd]) && (fd in kernel ==> flags[fd] == kernel[fd].events))
  }

  /** The mirror survives a close exactly if the descriptor has no flags. */
  lemma CloseKeepsIff(flags: map<Fd, bv32>, kernel: map<Fd, Registration>, fd: Fd)
    requires Mirrors(flags, kernel)
    ensures Covers(flags, kernel - {fd})
    ensures Mirrors(flags, kernel - {fd}) <==> fd !in flags
  {
    if fd in flags { assert fd !in (kernel - {fd}).Keys; }
    else { assert kernel - {fd} == kernel; }
  }

  lemma MirrorsIff(flags: map<Fd, bv32>, kernel: map<Fd, Registration>)
    ensures Mirrors(flags, kernel) <==> Covers(flags, kernel) && flags.Keys - kernel.Keys == {}
  {
    if Covers(flags, kernel) && flags.Keys - kernel.Keys == {} {
      forall fd | fd in flags.Keys ensures fd in kernel.Keys {
        assert fd !in flags.Keys - kernel.Keys;
      }
    }
  }

  function TableOf(kernel: map<Fd, Registration>): Table
  {
    map fd | fd in kernel ::
      Interest(kernel[fd].events & EPOLLIN != 0, kernel[fd].events & EPOLLOUT != 0, kernel[fd].dispatcher)
  }

  /** What these calls do to the table: registering an interest already there changes nothing, not even
      the dispatcher, and taking one of two interests back installs the dispatcher passed along. */
  function EpollApply(t: Table, c: Call): Table
  {
    var known := c.fd in t;
    match c
    case RegisterRead(fd, d) => if known && t[fd].read then t else Put(t, fd, true, known && t[fd].write, d)
    case RegisterWrite(fd, d) => if known && t[fd].write then t else Put(t, fd, known && t[fd].read, true, d)
    case UnregisterRead(fd, d) => if known then Put(t, fd, false, t[fd].write, d) else t
    case UnregisterWrite(fd, d) => if known then Put(t, fd, t[fd].read, false, d) else t
    case UnregisterAll(fd, _) => t - {fd}
  }

  /** The cases in which the dispatcher passed to a call matters. */
  predicate DispatcherMatters(t: Table, c: Call)
  {
    c.fd in t &&
    match c
    case RegisterRead(fd, _) => t[fd].read
    case RegisterWrite(fd, _) => t[fd].write
    case UnregisterRead(fd, _) => t[fd].write
    case UnregisterWrite(fd, _) => t[fd].read
    case UnregisterAll(_, _) => false
  }

  /** Epoll does what the other two do exactly when, in those cases, the dispatcher is the one
      registered. */
  lemma AgreesIff(t: Table, c: Call)
    requires NonEmpty(t)
    ensures EpollApply(t, c) == Apply(t, c) <==> (DispatcherMatters(t, c) ==> t[c.fd].dispatcher == c.dispatcher)
  {
    var fd := c.fd;
    var (a, b) := (EpollApply(t, c), Apply(t, c));
    if DispatcherMatters(t, c) {
      assert fd in a && fd in b && (c.RegisterRead? || c.RegisterWrite? ==> b[fd].dispatcher == c.dispatcher && a[fd] == t[fd]);
      assert c.UnregisterRead? || c.UnregisterWrite? ==> a[fd].dispatcher == c.dispatcher && b[fd].dispatcher == t[fd].dispatcher;
    }
  }

  lemma Bits(e: bv32, bit: bv32)
    requires (e == 0 || Meaningful(e)) && (bit == EPOLLIN || bit == EPOLLOUT)
    ensures Meaningful(e | bit)
    ensures (e | bit) & EPOLLIN != 0 <==> bit == EPOLLIN || e & EPOLLIN != 0
    ensures (e | bit) & EPOLLOUT != 0 <==> bit == EPOLLOUT || e & EPOLLOUT != 0
    ensures (e & !bit) & EPOLLIN != 0 <==> bit == EPOLLOUT && e & EPOLLIN != 0
    ensures (e & !bit) & EPOLLOUT != 0 <==> bit == EPOLLIN && e & EPOLLOUT != 0
    ensures e & !bit == 0 || Meaningful(e & !bit)
    ensures e & bit == 0 ==> e & !bit == e
    ensures (0 | bit) == bit
  {
    if e == 0 {} else if e == EPOLLIN {} else if e == EPOLLOUT {} else {}
  }

  lemma Updated(kernel: map<Fd, Registration>, fd: Fd, r: Registration)
    requires Meaningful(r.events)
    ensures TableOf(kernel[fd := r]) ==
      Put(TableOf(kernel), fd, r.events & EPOLLIN != 0, r.events & EPOLLOUT != 0, r.dispatcher)
  {
    Bits(r.events, EPOLLIN);
    assert r.events & EPOLLIN != 0 || r.events & EPOLLOUT != 0;
  }

  lemma Removed(kernel: map<Fd, Registration>, fd: Fd)
    ensures TableOf(kernel - {fd}) == TableOf(kernel) - {fd}
  {}

  class Epoll {
    var m_fdEventFlag: map<Fd, bv32>
    /** The kernel's interest list of this epoll instance. */
    var kernel: map<Fd, Registration>
    /** Set by Util::crash, which the source calls when epoll_ctl fails. */
    var crashed: bool

    constructor ()
      ensures Valid() && Table() == map[]
    {
      m_fdEventFlag, kernel, crashed := map[], map[], false;
    }

    /** In particular the crash path was never taken. */
    predicate Valid()
      reads this
    {
      !crashed && Mirrors(m_fdEventFlag, kernel)
    }

    function Table(): Table
      reads this
    {
      TableOf(kernel)
    }

    /** Descriptors that were closed while they had flags. */
    function Stale(): set<Fd>
      reads this
    {
      m_fdEventFlag.Keys - kernel.Keys
    }

    method EpollCtl(op: Operation, fd: Fd, event: Registration) returns (result: int)
      modifies this`kernel
      ensures result == if Legal(old(kernel), op, fd) then 0 else -1
      ensures kernel == if result == 0 then Ctl(old(kernel), op, fd, event) else old(kernel)
    {
      if !Legal(kernel, op, fd) {
        return -1;
      }
      kernel := Ctl(kernel, op, fd, event);
      return 0;
    }

    /** The kernel drops a descriptor when it is closed; nobody tells the flags. */
    method Closed(fd: Fd)
      requires Covers(m_fdEventFlag, kernel)
      modifies this`kernel
      ensures Covers(m_fdEventFlag, kernel) && Table() == old(Table()) - {fd}
      ensures Stale() == old(Stale()) + if fd in m_fdEventFlag then {fd} else {}
      ensures old(Valid()) ==> (Valid() <==> fd !in old(Table()))
    {
      if Mirrors(m_fdEventFlag, kernel) { CloseKeepsIff(m_fdEventFlag, kernel, fd); }
      kernel := kernel - {fd};
    }

    /** On a stale descriptor the kernel hears nothing of an interest that has its flag, and refuses any
        other. */
    method Register(fd: Fd, bit: bv32, dispatcher: Dispatcher)
      requires Covers(m_fdEventFlag, kernel) && (bit == EPOLLIN || bit == EPOLLOUT)
      modifies this
      ensures Covers(m_fdEventFlag, kernel) && Stale() == old(Stale())
      ensures fd !in Stale() ==> crashed == old(crashed)
      ensures fd !in Stale() ==>
        Table() == EpollApply(old(Table()), if bit == EPOLLIN then RegisterRead(fd, dispatcher) else RegisterWrite(fd, dispatcher))
      ensures fd in Stale() ==> Table() == old(Table()) && crashed == (old(crashed) || old(m_fdEventFlag[fd]) & bit == 0)
    {
      hide TableOf, Meaningful;
      ghost var before := kernel;
      Knows(kernel, fd);
      var eventFlag: bv32 := 0;
      var operation;
      if fd !in m_fdEventFlag {
        eventFlag := eventFlag | bit;
        Bits(0, bit);
        m_fdEventFlag := m_fdEventFlag[fd := eventFlag];
        operation := CtlAdd;
      } else {
        eventFlag := m_fdEventFlag[fd];
        if eventFlag & bit != 0 {
          return;
        }
        Bits(eventFlag, bit);
        eventFlag := eventFlag | bit;
        m_fdEventFlag := m_fdEventFlag[fd := eventFlag];
        operation := CtlMod;
      }
      var result := EpollCtl(operation, fd, Registration(eventFlag, dispatcher));
      crashed := crashed || result < 0;
      Updated(before, fd, Registration(eventFlag, dispatcher));
    }

    method RegisterReadEvent(fd: Fd, dispatcher: Dispatcher)
      requires Covers(m_fdEventFlag, kernel)
      modifies this
      ensures old(Valid()) ==> Valid()
      ensures Covers(m_fdEventFlag, kernel) && Stale() == old(Stale())
      ensures fd !in Stale() ==> crashed == old(crashed) && Table() == EpollApply(old(Table()), RegisterRead(fd, dispatcher))
      ensures fd in Stale() ==> Table() == old(Table()) && crashed == (old(crashed) || old(m_fdEventFlag[fd]) & EPOLLIN == 0)
    {
      MirrorsIff(m_fdEventFlag, kernel);
      Register(fd, EPOLLIN, dispatcher);
      MirrorsIff(m_fdEventFlag, kernel);
    }

    method RegisterWriteEvent(fd: Fd, dispatcher: Dispatcher)
      requires Covers(m_fdEventFlag, kernel)
      modifies this
      ensures old(Valid()) ==> Valid()
      ensures Covers(m_fdEventFlag, kernel) && Stale() == old(Stale())
      ensures fd !in Stale() ==> crashed == old(crashed) && Table() == EpollApply(old(Table()), RegisterWrite(fd, dispatcher))
      ensures fd in Stale() ==> Table() == old(Table()) && crashed == (old(crashed) || old(m_fdEventFlag[fd]) & EPOLLOUT == 0)
    {
      MirrorsIff(m_fdEventFlag, kernel);
      Register(fd, EPOLLOUT, dispatcher);
      MirrorsIff(m_fdEventFlag, kernel);
    }

    /** On a stale descriptor it always ends in the crash. */
    method Unregister(fd: Fd, bit: bv32, dispatcher: Dispatcher)
      requires Covers(m_fdEventFlag, kernel) && (bit == EPOLLIN || bit == EPOLLOUT)
      modifies this
      ensures Covers(m_fdEventFlag, kernel)
      ensures fd !in old(Stale()) ==> crashed == old(crashed) && Stale() == old(Stale())
      ensures fd !in old(Stale()) ==>
        Table() == EpollApply(old(Table()), if bit == EPOLLIN then UnregisterRead(fd, dispatcher) else UnregisterWrite(fd, dispatcher))
      ensures fd in old(Stale()) ==> Table() == old(Table()) && crashed
    {
      hide TableOf, Meaningful;
      ghost var before := kernel;
      Knows(kernel, fd);
      if fd !in m_fdEventFlag {
        return;
      }
      var operation;
      var eventFlag := m_fdEventFlag[fd];
      Bits(eventFlag, bit);
      if eventFlag & bit != 0 {
        eventFlag := eventFlag & !bit;
      }
      if eventFlag == 0 {
        m_fdEventFlag := m_fdEventFlag - {fd};
        operation := CtlDel;
        Removed(before, fd);
      } else {
        m_fdEventFlag := m_fdEventFlag[fd := eventFlag];
        operation := CtlMod;
        Updated(before, fd, Registration(eventFlag, dispatcher));
      }
      var result := EpollCtl(operation, fd, Registration(eventFlag, dispatcher));
      crashed := crashed || result < 0;
    }

    method UnregisterReadEvent(fd: Fd, dispatcher: Dispatcher)
      requires Covers(m_fdEventFlag, kernel)
      modifies this
      ensures old(Valid()) ==> Valid()
      ensures Covers(m_fdEventFlag, kernel)
      ensures fd !in old(Stale()) ==> crashed == old(crashed) && Table() == EpollApply(old(Table()), UnregisterRead(fd, dispatcher))
      ensures fd in old(Stale()) ==> Table() == old(Table()) && crashed
    {
      MirrorsIff(m_fdEventFlag, kernel);
      Unregister(fd, EPOLLIN, dispatcher);
      MirrorsIff(m_fdEventFlag, kernel);
    }

    method UnregisterWriteEvent(fd: Fd, dispatcher: Dispatcher)
      requires Covers(m_fdEventFlag, kernel)
      modifies this
      ensures old(Valid()) ==> Valid()
      ensures Covers(m_fdEventFlag, kernel)
      ensures fd !in old(Stale()) ==> crashed == old(crashed) && Table() == EpollApply(old(Table()), UnregisterWrite(fd, dispatcher))
      ensures fd in old(Stale()) ==> Table() == old(Table()) && crashed
    {
      MirrorsIff(m_fdEventFlag, kernel);
      Unregister(fd, EPOLLOUT, dispatcher);
      MirrorsIff(m_fdEventFlag, kernel);
    }

    method UnregisterAllEvent(fd: Fd, dispatcher: Dispatcher)
      requires Covers(m_fdEventFlag, kernel)
      modifies this
      ensures old(Valid()) ==> Valid()
      ensures Covers(m_fdEventFlag, kernel)
      ensures fd !in old(Stale()) ==> crashed == old(crashed) && Table() == EpollApply(old(Table()), UnregisterAll(fd, dispatcher))
      ensures fd in old(Stale()) ==> Table() == old(Table()) && crashed
    {
      Removed(kernel, fd);
      Knows(kernel, fd);
      if fd !in m_fdEventFlag {
        return;
      }
      m_fdEventFlag := m_fdEventFlag - {fd};
      var result := EpollCtl(CtlDel, fd, Registration(0, dispatcher));
      crashed := crashed || result < 0;
    }
  }

  /** A descriptor is closed and handed out again, and a new connection asks to read. It is watched exactly
      if the closed one had left nothing behind; otherwise the server crashes, or, where the read flag was
      left, never hears of the new connection. */
  method ReuseAfterClose(e: Epoll, fd: Fd, dispatcher: Dispatcher)
    requires e.Valid()
    modifies e
    ensures !e.crashed && e.Table() == old(e.Table())[fd := Interest(true, false, dispatcher)] <==> fd !in old(e.Table())
    ensures e.crashed <==> fd in old(e.Table()) && !old(e.Table())[fd].read
    ensures !e.crashed && fd in old(e.Table()) ==> fd !in e.Table()
  {
    hide TableOf;
    Knows(e.kernel, fd);
    e.Closed(fd);
    e.RegisterReadEvent(fd, dispatcher);
  }

  lemma Knows(kernel: map<Fd, Registration>, fd: Fd)
    ensures fd in TableOf(kernel) <==> fd in kernel
    ensures fd in kernel ==> var e := kernel[fd].events;
      TableOf(kernel)[fd] == Interest(e & EPOLLIN != 0, e & EPOLLOUT != 0, kernel[fd].dispatcher)
    ensures fd !in kernel ==> TableOf(kernel) - {fd} == TableOf(kernel)
  {}
}
