/** net/Select.{h,cpp}, Linux branches: the register and unregister calls over descriptor sets, a map
    and the highest descriptor. */
module Select {
  import opened InterestMap

  /** An fd_set holds the descriptors below this; FD_SET on any other is undefined. */
  const FD_SETSIZE := 1024

  predicate IsMaximum(max: int, fds: set<Fd>)
  {
    if fds == {} then max == -1 else max in fds && forall fd :: fd in fds ==> fd <= max
  }

  class Select {
    var m_readfds: set<Fd>
    var m_writefds: set<Fd>
    var m_exceptfds: set<Fd>
    var m_EventMap: map<Fd, Dispatcher>
    var m_maxfd: int

    constructor ()
      ensures Valid() && Table() == map[]
    {
      m_readfds, m_writefds, m_exceptfds := {}, {}, {};
      m_EventMap, m_maxfd := map[], -1;
    }

    /** The map's descriptors are those in a set, and m_maxfd is their maximum or -1. */
    ghost predicate Valid()
      reads this
    {
      && m_EventMap.Keys == m_readfds + m_writefds
      && (forall fd :: fd in m_EventMap ==> 0 <= fd < FD_SETSIZE)
      && m_exceptfds == {}
      && IsMaximum(m_maxfd, m_EventMap.Keys)
    }

    ghost function Table(): Table
      reads this
    {
      map fd | fd in m_EventMap :: Interest(fd in m_readfds, fd in m_writefds, m_EventMap[fd])
    }

    method RegisterReadEvent(fd: Fd, dispatcher: Dispatcher)
      requires Valid() && 0 <= fd < FD_SETSIZE
      modifies this
      ensures Valid() && Table() == Apply(old(Table()), RegisterRead(fd, dispatcher))
    {
      m_readfds := m_readfds + {fd};
      m_EventMap := m_EventMap[fd := dispatcher];
      if fd > m_maxfd {
        m_maxfd := fd;
      }
    }

    method RegisterWriteEvent(fd: Fd, dispatcher: Dispatcher)
      requires Valid() && 0 <= fd < FD_SETSIZE
      modifies this
      ensures Valid() && Table() == Apply(old(Table()), RegisterWrite(fd, dispatcher))
    {
      m_writefds := m_writefds + {fd};
      m_EventMap := m_EventMap[fd := dispatcher];
      if fd > m_maxfd {
        m_maxfd := fd;
      }
    }

    /** The loop over the map that recomputes the maximum. */
    method HighestFd() returns (max: int)
      requires forall fd :: fd in m_EventMap ==> 0 <= fd
      ensures IsMaximum(max, m_EventMap.Keys)
    {
      max := -1;
      var rest: set<Fd> := m_EventMap.Keys;
      while rest != {}
        invariant rest <= m_EventMap.Keys
        invariant forall fd :: fd in m_EventMap && fd !in rest ==> fd <= max
        invariant max in m_EventMap || (max == -1 && rest == m_EventMap.Keys)
        decreases |rest|
      {
        assert (forall fd: Fd :: fd !in rest) ==> rest == {};
        var fd: Fd :| fd in rest;
        rest := rest - {fd};
        if fd > max {
          max := fd;
        }
      }
    }

    /** `m_EventMap.erase(fd)` and what follows it in the three unregister calls. */
    method Forget(fd: Fd)
      requires forall f :: f in m_EventMap ==> 0 <= f
      requires IsMaximum(m_maxfd, m_EventMap.Keys)
      modifies this`m_EventMap, this`m_maxfd
      ensures m_EventMap == old(m_EventMap) - {fd} && IsMaximum(m_maxfd, m_EventMap.Keys)
    {
      m_EventMap := m_EventMap - {fd};
      if fd == m_maxfd {
        m_maxfd := HighestFd();
      } else {
        assert m_maxfd in old(m_EventMap) ==> m_maxfd in m_EventMap;
      }
    }

    method UnregisterReadEvent(fd: Fd, dispatcher: Dispatcher)
      requires Valid() && 0 <= fd < FD_SETSIZE
      modifies this
      ensures Valid() && Table() == Apply(old(Table()), UnregisterRead(fd, dispatcher))
    {
      m_readfds := m_readfds - {fd};
      if fd !in m_writefds {
        Forget(fd);
      }
    }

    method UnregisterWriteEvent(fd: Fd, dispatcher: Dispatcher)
      requires Valid() && 0 <= fd < FD_SETSIZE
      modifies this
      ensures Valid() && Table() == Apply(old(Table()), UnregisterWrite(fd, dispatcher))
    {
      m_writefds := m_writefds - {fd};
      if fd !in m_readfds {
        Forget(fd);
      }
    }

    method UnregisterAllEvent(fd: Fd, dispatcher: Dispatcher)
      requires Valid() && 0 <= fd < FD_SETSIZE
      modifies this
      ensures Valid() && Table() == Apply(old(Table()), UnregisterAll(fd, dispatcher))
    {
      m_readfds := m_readfds - {fd};
      m_writefds := m_writefds - {fd};
      m_exceptfds := m_exceptfds - {fd};
      Forget(fd);
    }
  }
}
