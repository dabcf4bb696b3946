/** net/Poll.{h,cpp}: the register and unregister calls over a vector of pollfd and a map. */
module Poll {
  import opened InterestMap

  const POLLIN: bv16 := 0x0001
  const POLLOUT: bv16 := 0x0004

  datatype PollFd = PollFd(fd: Fd, events: bv16)

  /** The position `std::find_if` stops at: the first entry for fd, or the end. */
  function Find(s: seq<PollFd>, fd: Fd): (i: nat)
    ensures i <= |s| && (i < |s| ==> s[i].fd == fd)
    ensures forall j :: 0 <= j < i ==> s[j].fd != fd
  {
    if s == [] || s[0].fd == fd then 0 else 1 + Find(s[1..], fd)
  }

  function EventsAt(s: seq<PollFd>, fd: Fd): bv16
  {
    var i := Find(s, fd);
    if i < |s| then s[i].events else 0
  }

  predicate Unique(s: seq<PollFd>)
  {
    forall i, j :: 0 <= i < j < |s| ==> s[i].fd != s[j].fd
  }

  predicate Meaningful(e: bv16)
  {
    e == POLLIN || e == POLLOUT || e == POLLIN | POLLOUT
  }

  lemma FindIs(s: seq<PollFd>, fd: Fd, i: nat)
    requires i <= |s| && (i < |s| ==> s[i].fd == fd) && forall j :: 0 <= j < i ==> s[j].fd != fd
    ensures Find(s, fd) == i
  {}

  lemma Replaced(s: seq<PollFd>, i: nat, e: bv16, fd: Fd)
    requires i < |s| && Unique(s)
    ensures EventsAt(s[i := PollFd(s[i].fd, e)], fd) == if fd == s[i].fd then e else EventsAt(s, fd)
  {
    var t := s[i := PollFd(s[i].fd, e)];
    FindIs(t, fd, Find(s, fd));
    if fd == s[i].fd { FindIs(s, fd, i); }
  }

  lemma Appended(s: seq<PollFd>, x: PollFd, fd: Fd)
    requires Find(s, x.fd) == |s|
    ensures EventsAt(s + [x], fd) == if fd == x.fd then x.events else EventsAt(s, fd)
  {
    var i := Find(s, fd);
    FindIs(s + [x], fd, if i == |s| && fd != x.fd then |s| + 1 else i);
  }

  lemma Erased(s: seq<PollFd>, i: nat, fd: Fd)
    requires i < |s| && Unique(s)
    ensures EventsAt(s[..i] + s[i + 1..], fd) == if fd == s[i].fd then 0 else EventsAt(s, fd)
  {
    var t := s[..i] + s[i + 1..];
    var k := Find(s, fd);
    if fd == s[i].fd {
      FindIs(t, fd, |t|);
    } else if k == |s| {
      FindIs(t, fd, |t|);
    } else {
      FindIs(t, fd, if k < i then k else k - 1);
    }
  }

  /** One entry per descriptor, every entry with an event, and the map has exactly those descriptors. */
  ghost predicate Proper(s: seq<PollFd>, m: map<Fd, Dispatcher>)
  {
    && Unique(s)
    && (forall i :: 0 <= i < |s| ==> Meaningful(s[i].events))
    && (forall fd :: fd in m <==> EventsAt(s, fd) != 0)
  }

  ghost function TableOf(s: seq<PollFd>, m: map<Fd, Dispatcher>): Table
  {
    map fd | fd in m :: Interest(EventsAt(s, fd) & POLLIN != 0, EventsAt(s, fd) & POLLOUT != 0, m[fd])
  }

  /** Entries and map changed at fd only, in step with each other: so did the table. */
  lemma ChangedAt(s: seq<PollFd>, m: map<Fd, Dispatcher>, t: seq<PollFd>, n: map<Fd, Dispatcher>, fd: Fd)
    requires forall f :: f != fd ==> EventsAt(t, f) == EventsAt(s, f)
    requires n - {fd} == m - {fd}
    requires fd in n <==> EventsAt(t, fd) != 0
    requires EventsAt(t, fd) == 0 || Meaningful(EventsAt(t, fd))
    ensures TableOf(t, n) == Put(TableOf(s, m), fd, EventsAt(t, fd) & POLLIN != 0, EventsAt(t, fd) & POLLOUT != 0,
                                 if fd in n then n[fd] else 0)
    ensures (forall f :: f in m <==> EventsAt(s, f) != 0) ==> (forall f :: f in n <==> EventsAt(t, f) != 0)
  {
    hide EventsAt;
    var e := EventsAt(t, fd);
    assert e == 0 <==> e & POLLIN == 0 && e & POLLOUT == 0;
    hide Meaningful;
    var (a, b) := (TableOf(s, m), TableOf(t, n));
    forall f | f != fd ensures (f in n <==> f in m) && (f in n ==> n[f] == m[f]) {
      assert f in n <==> f in n - {fd};
      assert f in m <==> f in m - {fd};
    }
    forall f | f != fd ensures (f in b <==> f in a) && (f in b ==> b[f] == a[f]) {}
    assert b - {fd} == a - {fd};
    assert fd !in b ==> b == b - {fd};
  }

  lemma Bits(e: bv16, bit: bv16)
    requires (e == 0 || Meaningful(e)) && (bit == POLLIN || bit == POLLOUT)
    ensures Meaningful(e | bit)
    ensures (e | bit) & POLLIN != 0 <==> bit == POLLIN || e & POLLIN != 0
    ensures (e | bit) & POLLOUT != 0 <==> bit == POLLOUT || e & POLLOUT != 0
    ensures (e & !bit) & POLLIN != 0 <==> bit == POLLOUT && e & POLLIN != 0
    ensures (e & !bit) & POLLOUT != 0 <==> bit == POLLIN && e & POLLOUT != 0
    ensures e & !bit == 0 || Meaningful(e & !bit)
    ensures e & !bit == 0 <==> (e & !bit) & (if bit == POLLIN then POLLOUT else POLLIN) == 0
    ensures bit != 0 && (0 as bv16) & POLLIN == 0 && (0 as bv16) & POLLOUT == 0
  {
    if e == 0 {} else if e == POLLIN {} else if e == POLLOUT {} else {}
  }

  /** `events |= bit` */
  function WithBit(e: bv16, bit: bv16): bv16
  {
    e | bit
  }

  lemma BitStays(e: bv16, bit: bv16)
    requires bit == POLLIN || bit == POLLOUT
    ensures WithBit(e, bit) != 0 && WithBit(0, bit) == bit && bit != 0
  {
    assert (e | POLLIN) & POLLIN == POLLIN && (e | POLLOUT) & POLLOUT == POLLOUT;
  }

  lemma OtherKeys(m: map<Fd, Dispatcher>, fd: Fd, dispatcher: Dispatcher)
    ensures m[fd := dispatcher] - {fd} == m - {fd}
  {}

  /** The entry for fd set to have events e: replaced, added or erased. */
  function SetEvents(s: seq<PollFd>, fd: Fd, e: bv16): seq<PollFd>
  {
    var i := Find(s, fd);
    if e == 0 then if i < |s| then s[..i] + s[i + 1..] else s
    else if i < |s| then s[i := PollFd(fd, e)] else s + [PollFd(fd, e)]
  }

  lemma SetEventsIs(s: seq<PollFd>, fd: Fd, e: bv16)
    requires e != 0
    ensures var i := Find(s, fd);
      SetEvents(s, fd, e) == if i < |s| then s[i := PollFd(fd, e)] else s + [PollFd(fd, e)]
  {}

  lemma EventsAtIs(s: seq<PollFd>, fd: Fd)
    ensures EventsAt(s, fd) == if Find(s, fd) < |s| then s[Find(s, fd)].events else 0
  {}

  lemma SetEventsKeeps(s: seq<PollFd>, fd: Fd, e: bv16)
    requires Unique(s) && (forall i :: 0 <= i < |s| ==> Meaningful(s[i].events)) && (e == 0 || Meaningful(e))
    ensures var t := SetEvents(s, fd, e);
      Unique(t) && (forall i :: 0 <= i < |t| ==> Meaningful(t[i].events))
  {}

  lemma SetEventsAt(s: seq<PollFd>, fd: Fd, e: bv16, f: Fd)
    requires Unique(s)
    ensures EventsAt(SetEvents(s, fd, e), f) == if f == fd then e else EventsAt(s, f)
  {
    var i := Find(s, fd);
    if i < |s| {
      if e == 0 { Erased(s, i, f); } else { Replaced(s, i, e, f); }
    } else if e != 0 {
      Appended(s, PollFd(fd, e), f);
    }
  }

  lemma EventsMeaningful(s: seq<PollFd>, m: map<Fd, Dispatcher>, fd: Fd)
    requires Proper(s, m)
    ensures EventsAt(s, fd) == 0 || Meaningful(EventsAt(s, fd))
  {}

  /** Setting the events of fd in the vector and its dispatcher in the map puts them in the table. */
  lemma SetBoth(s: seq<PollFd>, m: map<Fd, Dispatcher>, n: map<Fd, Dispatcher>, fd: Fd, e: bv16)
    requires Proper(s, m) && (e == 0 || Meaningful(e)) && n - {fd} == m - {fd} && (fd in n <==> e != 0)
    ensures Proper(SetEvents(s, fd, e), n)
    ensures TableOf(SetEvents(s, fd, e), n) ==
      Put(TableOf(s, m), fd, e & POLLIN != 0, e & POLLOUT != 0, if fd in n then n[fd] else 0)
  {
    SetEventsKeeps(s, fd, e);
    forall f ensures EventsAt(SetEvents(s, fd, e), f) == if f == fd then e else EventsAt(s, f) { SetEventsAt(s, fd, e, f); }
    ChangedAt(s, m, SetEvents(s, fd, e), n, fd);
  }

  class Poll {
    var m_pollfds: seq<PollFd>
    var m_EventMap: map<Fd, Dispatcher>

    constructor ()
      ensures Valid() && Table() == map[]
    {
      m_pollfds, m_EventMap := [], map[];
    }

    ghost predicate Valid()
      reads this
    {
      Proper(m_pollfds, m_EventMap)
    }

    ghost function Table(): Table
      reads this
    {
      TableOf(m_pollfds, m_EventMap)
    }

    /** `it->events |= bit` or a new entry, then the dispatcher. */
    method Register(fd: Fd, bit: bv16, dispatcher: Dispatcher)
      requires Valid() && (bit == POLLIN || bit == POLLOUT)
      modifies this
      ensures Valid()
      ensures Table() == Apply(old(Table()), if bit == POLLIN then RegisterRead(fd, dispatcher) else RegisterWrite(fd, dispatcher))
    {
      hide Proper, TableOf, Find, EventsAt, SetEvents;
      ghost var (s, m) := (m_pollfds, m_EventMap);
      ghost var e := EventsAt(s, fd);
      AddEvents(fd, bit);
      m_EventMap := m_EventMap[fd := dispatcher];
      EventsMeaningful(s, m, fd);
      InTable(s, m, fd);
      Bits(e, bit);
      OtherKeys(m, fd, dispatcher);
      SetBoth(s, m, m_EventMap, fd, e | bit);
    }

    method AddEvents(fd: Fd, bit: bv16)
      requires bit == POLLIN || bit == POLLOUT
      modifies this`m_pollfds
      ensures m_pollfds == SetEvents(old(m_pollfds), fd, WithBit(EventsAt(old(m_pollfds), fd), bit))
    {
      hide Find, EventsAt, SetEvents, WithBit;
      var it := Find(m_pollfds, fd);
      BitStays(EventsAt(m_pollfds, fd), bit);
      EventsAtIs(m_pollfds, fd);
      if it < |m_pollfds| {
        var events := WithBit(m_pollfds[it].events, bit);
        SetEventsIs(m_pollfds, fd, events);
        m_pollfds := m_pollfds[it := PollFd(fd, events)];
      } else {
        SetEventsIs(m_pollfds, fd, bit);
        m_pollfds := m_pollfds + [PollFd(fd, bit)];
      }
    }

    method RegisterReadEvent(fd: Fd, dispatcher: Dispatcher)
      requires Valid()
      modifies this
      ensures Valid() && Table() == Apply(old(Table()), RegisterRead(fd, dispatcher))
    {
      Register(fd, POLLIN, dispatcher);
    }

    method RegisterWriteEvent(fd: Fd, dispatcher: Dispatcher)
      requires Valid()
      modifies this
      ensures Valid() && Table() == Apply(old(Table()), RegisterWrite(fd, dispatcher))
    {
      Register(fd, POLLOUT, dispatcher);
    }

    /** `it->events &= ~bit`; the entry goes when the other bit is not set. */
    method Unregister(fd: Fd, bit: bv16, dispatcher: Dispatcher)
      requires Valid() && (bit == POLLIN || bit == POLLOUT)
      modifies this
      ensures Valid()
      ensures Table() == Apply(old(Table()), if bit == POLLIN then UnregisterRead(fd, dispatcher) else UnregisterWrite(fd, dispatcher))
    {
      hide Proper, TableOf, Find;
      ghost var (s, m) := (m_pollfds, m_EventMap);
      ghost var e := EventsAt(s, fd);
      EventsMeaningful(s, m, fd);
      InTable(s, m, fd);
      Bits(e, bit);
      var it := Find(m_pollfds, fd);
      if it < |m_pollfds| {
        m_pollfds := m_pollfds[it := PollFd(fd, m_pollfds[it].events & !bit)];
        FindIs(m_pollfds, fd, it);
      }
      var other := if bit == POLLIN then POLLOUT else POLLIN;
      var itr := Find(m_pollfds, fd);
      if itr < |m_pollfds| && m_pollfds[itr].events & other == 0 {
        m_EventMap := m_EventMap - {fd};
        m_pollfds := m_pollfds[..itr] + m_pollfds[itr + 1..];
      }
      assert m_pollfds == SetEvents(s, fd, e & !bit);
      SetBoth(s, m, m_EventMap, fd, e & !bit);
    }

    method UnregisterReadEvent(fd: Fd, dispatcher: Dispatcher)
      requires Valid()
      modifies this
      ensures Valid() && Table() == Apply(old(Table()), UnregisterRead(fd, dispatcher))
    {
      Unregister(fd, POLLIN, dispatcher);
    }

    method UnregisterWriteEvent(fd: Fd, dispatcher: Dispatcher)
      requires Valid()
      modifies this
      ensures Valid() && Table() == Apply(old(Table()), UnregisterWrite(fd, dispatcher))
    {
      Unregister(fd, POLLOUT, dispatcher);
    }

    method UnregisterAllEvent(fd: Fd, dispatcher: Dispatcher)
      requires Valid()
      modifies this
      ensures Valid() && Table() == Apply(old(Table()), UnregisterAll(fd, dispatcher))
    {
      hide Proper, TableOf, Find;
      var it := Find(m_pollfds, fd);
      if it < |m_pollfds| {
        m_pollfds := m_pollfds[..it] + m_pollfds[it + 1..];
      }
      m_EventMap := m_EventMap - {fd};
      Bits(0, POLLIN);
      SetBoth(old(m_pollfds), old(m_EventMap), m_EventMap, fd, 0);
    }
  }

  lemma InTable(s: seq<PollFd>, m: map<Fd, Dispatcher>, fd: Fd)
    requires Proper(s, m)
    ensures fd in m <==> EventsAt(s, fd) != 0
    ensures Find(s, fd) < |s| <==> fd in m
    ensures fd in TableOf(s, m) <==> fd in m
    ensures fd in m ==> TableOf(s, m)[fd] == Interest(EventsAt(s, fd) & POLLIN != 0, EventsAt(s, fd) & POLLOUT != 0, m[fd])
    ensures fd !in m ==> TableOf(s, m) - {fd} == TableOf(s, m) && m - {fd} == m
  {
    FoundIff(s, m, fd);
    hide EventsAt, Find, Meaningful;
    assert fd !in m ==> fd !in TableOf(s, m);
  }

  lemma FoundIff(s: seq<PollFd>, m: map<Fd, Dispatcher>, fd: Fd)
    requires Proper(s, m)
    ensures Find(s, fd) < |s| <==> fd in m
  {
    EventsAtIs(s, fd);
    assert Meaningful(EventsAt(s, fd)) ==> EventsAt(s, fd) != 0;
  }
}
