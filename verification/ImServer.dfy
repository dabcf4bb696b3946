/** ZhkeyesIMServer/IMServer.cpp: the object whose operations SessionIndex orders in every way. */
module ImServer {
  import opened SessionIndex

  class IMServer {
    var s_sessionID: nat
    /** The IMSession objects ever made. */
    var m_objects: seq<Session>
    var m_socketToSession: map<Fd, SessionId>
    var m_sessions: map<SessionId, Ref>
    var m_userIdToSession: map<Uid, Ref>
    var m_pendingToDeleteSessions: seq<Ref>
    /** What the kernel knows about the sockets. */
    ghost var open: set<Fd>
    ghost var closing: set<Fd>

    constructor ()
      ensures State() == Start
    {
      s_sessionID, m_objects := 0, [];
      m_socketToSession, m_sessions, m_userIdToSession, m_pendingToDeleteSessions := map[], map[], map[], [];
      open, closing := {}, {};
    }

    ghost function State(): Server
      reads this
    {
      Server(s_sessionID, open, closing, m_objects, m_socketToSession, m_sessions, m_userIdToSession, m_pendingToDeleteSessions)
    }

    method OnConnected(fd: Fd)
      modifies this
      ensures State() == Apply(old(State()), Accept(fd))
    {
      open := open + {fd};
      s_sessionID := (s_sessionID + 1) % 0x1_0000_0000;
      var sessionId := s_sessionID;
      if fd !in m_socketToSession {
        m_socketToSession := m_socketToSession[fd := sessionId];
      }
      if sessionId !in m_sessions {
        m_sessions := m_sessions[sessionId := |m_objects|];
      }
      m_objects := m_objects + [Session(sessionId, fd, 0)];
    }

    /** IMSession::setUserInfo, which any session object may call. */
    method SetUserInfo(session: Ref, uid: Uid)
      requires session < |m_objects|
      modifies this
      ensures State() == Apply(old(State()), Authenticate(session, uid))
    {
      m_objects := m_objects[session := m_objects[session].(uid := uid)];
      m_userIdToSession := m_userIdToSession[uid := session];
    }

    method OnDisConnected(socket: Fd)
      requires forall id :: id in m_sessions ==> m_sessions[id] < |m_objects|
      modifies this
      ensures State() == Apply(old(State()), CloseCallback(socket))
    {
      closing := closing + {socket};
      if socket in m_socketToSession {
        var sessionID := m_socketToSession[socket];
        if sessionID in m_sessions {
          var session := m_sessions[sessionID];
          var uid := m_objects[session].uid;
          if uid != 0 {
            m_userIdToSession := m_userIdToSession - {uid};
          }
          m_pendingToDeleteSessions := m_pendingToDeleteSessions + [session];
          m_sessions := m_sessions - {sessionID};
        }
        m_socketToSession := m_socketToSession - {socket};
      }
    }

    /** The kernel may hand the descriptor out again. */
    ghost method CloseSocket(fd: Fd)
      modifies this`open, this`closing
      ensures State() == Apply(old(State()), Step.CloseSocket(fd))
    {
      open, closing := open - {fd}, closing - {fd};
    }
  }

  /** Any legal run on the object ends with sockets and sessions in bijection, exactly the descriptors
      between accept and close callback indexed, and no session object lost. The uid entries named live sessions all the way exactly if
      every authentication came in time, and live sessions were listed all the way exactly if none took a uid
      over. */
  method Drive(steps: seq<Step>) returns (server: IMServer)
    requires AllLegal(Start, steps)
    ensures server.State() == Run(Start, steps) && Bijection(server.State()) && Sockets(server.State())
    ensures Kept(server.State())
    ensures AllInTime(Start, steps) ==> UsersLive(server.State())
    ensures NoTakeover(Start, steps) ==> Listed(server.State())
  {
    hide Apply, Legal, Bijection, Sockets, UsersLive, Listed, InTime, TakesOver, Kept;
    server := new IMServer();
    StartsWell();
    assert steps[0..] == steps;
    for i := 0 to |steps|
      invariant fresh(server) && Inv(server.State())
      invariant AllLegal(server.State(), steps[i..]) && Run(server.State(), steps[i..]) == Run(Start, steps)
      invariant AlwaysLive(Start, steps) ==> AlwaysLive(server.State(), steps[i..])
      invariant AlwaysListed(Start, steps) ==> AlwaysListed(server.State(), steps[i..])
    {
      assert steps[i..][1..] == steps[i + 1..];
      StepKeeps(server.State(), steps[i]);
      Do(server, steps[i]);
    }
    assert steps[|steps|..] == [];
    ObjectsKept(Start, steps);
    UsersLiveIff(Start, steps);
    ListedIff(Start, steps);
  }

  method Do(server: IMServer, step: Step)
    requires Inv(server.State()) && Legal(server.State(), step)
    modifies server
    ensures server.State() == Apply(old(server.State()), step)
  {
    match step
    case Accept(fd) => server.OnConnected(fd);
    case Authenticate(r, uid) => server.SetUserInfo(r, uid);
    case CloseCallback(fd) => server.OnDisConnected(fd);
    case CloseSocket(fd) => server.CloseSocket(fd);
  }
}
