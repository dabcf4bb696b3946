/** The three session indices of ZhkeyesIMServer/IMServer.cpp over the life of its sockets. Each
    operation is one atomic step. Session objects are kept apart from the table: one that left it lives on
    in the list of sessions to delete, which is never emptied, and can still authenticate. */
module SessionIndex {
  type Fd = int
  type SessionId = nat
  type Uid = nat
  /** A session object, by its place in the order in which they are made. */
  type Ref = nat

  /** The uid is 0 until the session authenticates. */
  datatype Session = Session(id: SessionId, fd: Fd, uid: Uid)

  /** `open` are the descriptors the kernel will not hand out again, `closing` those whose close
      callback has run; `counter` is the static one behind generateID. */
  datatype Server = Server(counter: nat, open: set<Fd>, closing: set<Fd>, objects: seq<Session>,
                           socketToSession: map<Fd, SessionId>, sessions: map<SessionId, Ref>,
                           users: map<Uid, Ref>, toDelete: seq<Ref>)

  const Start := Server(0, {}, {}, [], map[], map[], map[], [])

  datatype Step = Accept(fd: Fd) | Authenticate(session: Ref, uid: Uid) | CloseCallback(fd: Fd) | CloseSocket(fd: Fd)

  /** `insert` of the standard maps leaves an existing entry alone. */
  function Insert<K, V>(m: map<K, V>, k: K, v: V): map<K, V>
  {
    if k in m then m else m[k := v]
  }

  function NextId(s: Server): SessionId
  {
    (s.counter + 1) % 0x1_0000_0000
  }

  function OnConnected(s: Server, fd: Fd): Server
  {
    s.(counter := NextId(s),
       objects := s.objects + [Session(NextId(s), fd, 0)],
       socketToSession := Insert(s.socketToSession, fd, NextId(s)),
       sessions := Insert(s.sessions, NextId(s), |s.objects|))
  }

  function SetUserInfo(s: Server, session: Ref, uid: Uid): Server
    requires session < |s.objects|
  {
    s.(objects := s.objects[session := s.objects[session].(uid := uid)], users := s.users[uid := session])
  }

  function OnDisConnected(s: Server, fd: Fd): Server
  {
    if fd !in s.socketToSession then s
    else
      var id := s.socketToSession[fd];
      var t := s.(socketToSession := s.socketToSession - {fd});
      if id !in s.sessions then t
      else
        var uid := if s.sessions[id] < |s.objects| then s.objects[s.sessions[id]].uid else 0;
        t.(users := if uid != 0 then s.users - {uid} else s.users,
           sessions := s.sessions - {id}, toDelete := s.toDelete + [s.sessions[id]])
  }

  /** The kernel hands out only descriptors that are not open, TCPConnection::onClose runs the callback
      before closesocket, and fewer than 2^32 sessions are made. Any session object may authenticate at any
      time and with any uid. */
  predicate Legal(s: Server, step: Step)
  {
    match step
    case Accept(fd) => fd !in s.open && s.counter < 0xFFFF_FFFF
    case Authenticate(r, _) => r < |s.objects|
    case CloseCallback(fd) => fd in s.open
    case CloseSocket(fd) => fd in s.closing
  }

  function Apply(s: Server, step: Step): Server
    requires step.Authenticate? ==> step.session < |s.objects|
  {
    match step
    case Accept(fd) => OnConnected(s.(open := s.open + {fd}), fd)
    case Authenticate(r, uid) => SetUserInfo(s, r, uid)
    case CloseCallback(fd) => OnDisConnected(s.(closing := s.closing + {fd}), fd)
    case CloseSocket(fd) => s.(open := s.open - {fd}, closing := s.closing - {fd})
  }

  predicate AllLegal(s: Server, steps: seq<Step>)
    decreases |steps|
  {
    steps == [] || (Legal(s, steps[0]) && AllLegal(Apply(s, steps[0]), steps[1..]))
  }

  function Run(s: Server, steps: seq<Step>): Server
    requires AllLegal(s, steps)
    decreases |steps|
  {
    if steps == [] then s else Run(Apply(s, steps[0]), steps[1..])
  }

  // ---------- sockets and sessions ----------

  /** The session is in the table. */
  predicate Live(s: Server, r: Ref)
  {
    r < |s.objects| && s.objects[r].id in s.sessions && s.sessions[s.objects[r].id] == r
  }

  /** Sockets and sessions in the table correspond one to one. */
  predicate Bijection(s: Server)
  {
    && (forall fd :: fd in s.socketToSession ==>
          var id := s.socketToSession[fd];
          id in s.sessions && s.sessions[id] < |s.objects| && s.objects[s.sessions[id]].fd == fd)
    && (forall id :: id in s.sessions ==>
          s.sessions[id] < |s.objects|
          && var o := s.objects[s.sessions[id]]; o.id == id && o.fd in s.socketToSession && s.socketToSession[o.fd] == id)
  }

  /** A descriptor is indexed from its accept to its close callback, and at no other time; sessions are
      numbered as they are made. */
  predicate Sockets(s: Server)
  {
    && s.counter == |s.objects| <= 0xFFFF_FFFF && s.closing <= s.open
    && (forall r :: 0 <= r < |s.objects| ==> s.objects[r].id == r + 1)
    && s.socketToSession.Keys == s.open - s.closing
  }

  predicate Inv(s: Server)
  {
    Bijection(s) && Sockets(s)
  }

  lemma AcceptKeeps(s: Server, fd: Fd)
    requires Inv(s) && fd !in s.open && s.counter < 0xFFFF_FFFF
    ensures Inv(OnConnected(s.(open := s.open + {fd}), fd))
  {
    var t := OnConnected(s.(open := s.open + {fd}), fd);
    assert NextId(s) == |s.objects| + 1 && NextId(s) !in s.sessions && fd !in s.socketToSession;
    assert t.sessions == s.sessions[NextId(s) := |s.objects|] && t.socketToSession == s.socketToSession[fd := NextId(s)];
    assert t.objects[|s.objects|] == Session(NextId(s), fd, 0);
    assert Bijection(t);
  }

  lemma AuthenticateKeeps(s: Server, r: Ref, uid: Uid)
    requires Inv(s) && r < |s.objects|
    ensures Inv(SetUserInfo(s, r, uid))
  {
    var t := SetUserInfo(s, r, uid);
    assert forall q :: 0 <= q < |s.objects| ==> t.objects[q].id == s.objects[q].id && t.objects[q].fd == s.objects[q].fd;
    assert Bijection(t);
  }

  lemma DisconnectKeeps(s: Server, fd: Fd)
    requires Inv(s) && fd in s.open
    ensures Inv(OnDisConnected(s.(closing := s.closing + {fd}), fd))
  {
    var t := OnDisConnected(s.(closing := s.closing + {fd}), fd);
    if fd in s.socketToSession {
      assert t.sessions == s.sessions - {s.socketToSession[fd]} && t.socketToSession == s.socketToSession - {fd};
      assert t.socketToSession.Keys == s.socketToSession.Keys - {fd};
    }
    assert Bijection(t);
  }

  lemma StepKeeps(s: Server, step: Step)
    requires Inv(s) && Legal(s, step)
    ensures Inv(Apply(s, step))
  {
    hide OnConnected, SetUserInfo, OnDisConnected;
    match step
    case Accept(fd) => AcceptKeeps(s, fd);
    case Authenticate(r, uid) => AuthenticateKeeps(s, r, uid);
    case CloseCallback(fd) => DisconnectKeeps(s, fd);
    case CloseSocket(fd) =>
  }

  /** In every run the socket index and the session table stay in bijection, whoever authenticates and
      whenever; a descriptor may be reused as soon as the kernel allows it. */
  lemma {:induction false} EveryRun(s: Server, steps: seq<Step>)
    requires Inv(s) && AllLegal(s, steps)
    ensures Inv(Run(s, steps))
    decreases |steps|
  {
    if steps != [] {
      StepKeeps(s, steps[0]);
      EveryRun(Apply(s, steps[0]), steps[1..]);
    }
  }

  /** The order in onClose matters: had the descriptor been reused before the callback ran, `insert` would
      keep the old entry and the new session would not be found by its socket. */
  lemma ReuseBeforeCallbackBreaks(s: Server, fd: Fd)
    requires Inv(s) && s.counter < 0xFFFF_FFFF && fd in s.socketToSession
    ensures !Bijection(OnConnected(s, fd))
  {
    var t := OnConnected(s, fd);
    assert NextId(s) == s.counter + 1 && NextId(s) in t.sessions && t.objects[t.sessions[NextId(s)]].fd == fd;
    assert t.socketToSession[fd] == s.socketToSession[fd] != NextId(s);
  }

  /** An accept, also one whose number has wrapped around or whose descriptor is still indexed, leaves every
      entry of both indices as it is, and makes one session object with a 32-bit number and no uid. */
  lemma AcceptOverwritesNothing(s: Server, fd: Fd)
    ensures var t := OnConnected(s, fd);
      (forall f :: f in s.socketToSession ==> f in t.socketToSession && t.socketToSession[f] == s.socketToSession[f])
      && (forall id :: id in s.sessions ==> id in t.sessions && t.sessions[id] == s.sessions[id])
      && t.users == s.users && t.toDelete == s.toDelete && |t.objects| == |s.objects| + 1 && s.objects <= t.objects
      && var o := t.objects[|s.objects|]; o.fd == fd && o.uid == 0 && o.id == t.counter < 0x1_0000_0000
    ensures s.counter == 0xFFFF_FFFF ==> OnConnected(s, fd).counter == 0
  {}

  // ---------- no session object is lost ----------

  /** Every session object is either in the table, or waits to be deleted, exactly once. */
  predicate Kept(s: Server)
  {
    forall r :: 0 <= r < |s.objects| ==> multiset(s.toDelete)[r] == if Live(s, r) then 0 else 1
  }

  /** What a close callback does: the socket's session moves from the table to those to be deleted, and the
      entry of its uid goes, unless the uid is 0. */
  lemma DisconnectMoves(s: Server, fd: Fd)
    requires Inv(s) && fd in s.socketToSession
    ensures var (t, r) := (OnDisConnected(s, fd), s.sessions[s.socketToSession[fd]]);
      Live(s, r) && s.objects[r].fd == fd && t.toDelete == s.toDelete + [r] && t.objects == s.objects
      && (forall q: Ref :: Live(t, q) <==> Live(s, q) && q != r)
      && (forall uid :: uid in t.users <==> uid in s.users && (uid == 0 || uid != s.objects[r].uid))
      && (forall uid :: uid in t.users ==> t.users[uid] == s.users[uid])
  {}

  lemma KeptStep(s: Server, step: Step)
    requires Inv(s) && Kept(s) && Legal(s, step) && (forall r :: r in s.toDelete ==> r < |s.objects|)
    ensures Kept(Apply(s, step)) && forall r :: r in Apply(s, step).toDelete ==> r < |Apply(s, step).objects|
  {
    var t := Apply(s, step);
    match step
    case Accept(fd) => KeptAccept(s, fd);
    case Authenticate(r, uid) => forall q: Ref ensures Live(t, q) <==> Live(s, q) { SameLive(s, r, uid, q); }
    case CloseCallback(fd) => KeptClose(s, fd);
    case CloseSocket(fd) => assert forall q: Ref :: Live(t, q) <==> Live(s, q);
  }

  lemma KeptAccept(s: Server, fd: Fd)
    requires Inv(s) && Kept(s) && Legal(s, Accept(fd)) && (forall r :: r in s.toDelete ==> r < |s.objects|)
    ensures Kept(Apply(s, Accept(fd)))
  {
    var t := Apply(s, Accept(fd));
    assert NextId(s) == |s.objects| + 1 && NextId(s) !in s.sessions;
    forall r | 0 <= r < |t.objects| ensures multiset(t.toDelete)[r] == if Live(t, r) then 0 else 1 {
      if r < |s.objects| { assert Live(t, r) <==> Live(s, r); } else { assert r !in s.toDelete; }
    }
  }

  lemma KeptClose(s: Server, fd: Fd)
    requires Inv(s) && Kept(s) && Legal(s, CloseCallback(fd)) && (forall r :: r in s.toDelete ==> r < |s.objects|)
    ensures Kept(Apply(s, CloseCallback(fd)))
    ensures forall r :: r in Apply(s, CloseCallback(fd)).toDelete ==> r < |s.objects|
  {
    var c := s.(closing := s.closing + {fd});
    var t := OnDisConnected(c, fd);
    if fd in s.socketToSession {
      DisconnectMoves(s, fd);
      var r := s.sessions[s.socketToSession[fd]];
      assert t == OnDisConnected(s, fd).(closing := c.closing);
      forall q: Ref | q < |s.objects| ensures multiset(t.toDelete)[q] == if Live(t, q) then 0 else 1 {
        assert Live(t, q) <==> Live(OnDisConnected(s, fd), q);
        assert multiset(t.toDelete)[q] == multiset(s.toDelete)[q] + if q == r then 1 else 0;
      }
    } else {
      assert forall q: Ref :: Live(t, q) <==> Live(s, q);
    }
  }

  /** In every run no session object is lost or listed for deletion twice. */
  lemma {:induction false} ObjectsKept(s: Server, steps: seq<Step>)
    requires Inv(s) && Kept(s) && AllLegal(s, steps) && (forall r :: r in s.toDelete ==> r < |s.objects|)
    ensures Kept(Run(s, steps))
    decreases |steps|
  {
    if steps != [] {
      hide Inv, Kept, Apply, Legal;
      StepKeeps(s, steps[0]);
      KeptStep(s, steps[0]);
      ObjectsKept(Apply(s, steps[0]), steps[1..]);
    }
  }

  // ---------- uid entries name live sessions ----------

  /** Every uid entry names a session that is still in the table and has that uid. */
  predicate UsersLive(s: Server)
  {
    forall uid :: uid in s.users ==> uid != 0 && Live(s, s.users[uid]) && s.objects[s.users[uid]].uid == uid
  }

  /** The session is still in the table, the uid is not 0, and no entry under an old uid stays behind. */
  predicate InTime(s: Server, r: Ref, uid: Uid)
    requires r < |s.objects|
  {
    var before := s.objects[r].uid;
    Live(s, r) && uid != 0 && (before == uid || !(before in s.users && s.users[before] == r))
  }

  lemma SameLive(s: Server, r: Ref, uid: Uid, q: Ref)
    requires r < |s.objects|
    ensures Live(SetUserInfo(s, r, uid), q) <==> Live(s, q)
  {}

  /** Any authentication: the uid entries stay live exactly if it comes in time. */
  lemma AuthenticationKeepsIff(s: Server, r: Ref, uid: Uid)
    requires UsersLive(s) && r < |s.objects|
    ensures UsersLive(SetUserInfo(s, r, uid)) <==> InTime(s, r, uid)
  {
    var t := SetUserInfo(s, r, uid);
    forall q: Ref ensures Live(t, q) <==> Live(s, q) { SameLive(s, r, uid, q); }
    assert uid in t.users && t.users[uid] == r;
    var before := s.objects[r].uid;
    if before != uid && before in s.users && s.users[before] == r {
      assert before in t.users && t.users[before] == r && t.objects[r].uid != before;
    }
  }

  lemma AcceptKeepsUsers(s: Server, fd: Fd)
    requires Inv(s) && UsersLive(s) && Legal(s, Accept(fd))
    ensures UsersLive(Apply(s, Accept(fd)))
  {
    var t := Apply(s, Accept(fd));
    assert NextId(s) == s.counter + 1 && NextId(s) !in s.sessions;
    forall r: Ref | Live(s, r) ensures Live(t, r) && t.objects[r] == s.objects[r] {}
  }

  lemma CloseKeepsUsers(s: Server, fd: Fd)
    requires Inv(s) && UsersLive(s) && Legal(s, CloseCallback(fd))
    ensures UsersLive(Apply(s, CloseCallback(fd)))
  {
    var t := Apply(s, CloseCallback(fd));
    if fd in s.socketToSession {
      var r := s.sessions[s.socketToSession[fd]];
      forall uid | uid in t.users ensures uid in s.users && s.users[uid] != r {}
      forall q: Ref | Live(s, q) && q != r ensures Live(t, q) {}
    }
  }

  lemma OthersKeepUsers(s: Server, step: Step)
    requires Inv(s) && UsersLive(s) && Legal(s, step) && !step.Authenticate?
    ensures UsersLive(Apply(s, step))
  {
    hide OnConnected, OnDisConnected, Inv, Bijection, Sockets;
    match step
    case Accept(fd) => AcceptKeepsUsers(s, fd);
    case CloseCallback(fd) => CloseKeepsUsers(s, fd);
    case CloseSocket(fd) =>
  }

  /** Before the first step and after each. */
  predicate AlwaysLive(s: Server, steps: seq<Step>)
    requires AllLegal(s, steps)
    decreases |steps|
  {
    UsersLive(s) && (steps == [] || AlwaysLive(Apply(s, steps[0]), steps[1..]))
  }

  predicate AllInTime(s: Server, steps: seq<Step>)
    requires AllLegal(s, steps)
    decreases |steps|
  {
    steps == [] ||
    ((steps[0].Authenticate? ==> InTime(s, steps[0].session, steps[0].uid)) && AllInTime(Apply(s, steps[0]), steps[1..]))
  }

  /** Over a whole run every uid entry always names a live session of that uid exactly if every
      authentication comes in time. */
  lemma {:induction false} UsersLiveIff(s: Server, steps: seq<Step>)
    requires Inv(s) && UsersLive(s) && AllLegal(s, steps)
    ensures AlwaysLive(s, steps) <==> AllInTime(s, steps)
    decreases |steps|
  {
    if steps != [] {
      hide UsersLive, InTime, Inv;
      var t := Apply(s, steps[0]);
      StepKeeps(s, steps[0]);
      if steps[0].Authenticate? {
        AuthenticationKeepsIff(s, steps[0].session, steps[0].uid);
      } else {
        OthersKeepUsers(s, steps[0]);
      }
      if UsersLive(t) { UsersLiveIff(t, steps[1..]); }
      assert !UsersLive(t) ==> !AlwaysLive(t, steps[1..]);
    }
  }

  lemma FromStart(steps: seq<Step>)
    requires AllLegal(Start, steps)
    ensures Bijection(Run(Start, steps)) && Sockets(Run(Start, steps))
    ensures AllInTime(Start, steps) <==> AlwaysLive(Start, steps)
  {
    hide Bijection, Sockets, UsersLive, Listed, Legal, Apply, InTime;
    StartsWell();
    EveryRun(Start, steps);
    UsersLiveIff(Start, steps);
  }

  lemma StartsWell()
    ensures Inv(Start) && UsersLive(Start) && Listed(Start) && Kept(Start)
  {}

  /** Authenticating once is not enough: the connection closes while a request from the same read is
      handled, the loop goes on, and the session authenticates when it has left the table. */
  lemma LateAuthentication()
    ensures var steps := [Accept(5), CloseCallback(5), Authenticate(0, 7)];
      AllLegal(Start, steps)
      && var s := Run(Start, steps); s.users == map[7 := 0] && !Live(s, 0) && !UsersLive(s)
  {
    var a := Apply(Start, Accept(5));
    assert NextId(Start) == 1 && a.sessions == map[1 := 0] && a.socketToSession == map[5 := 1];
    var b := Apply(a, CloseCallback(5));
    assert b.sessions == map[] && b.objects == [Session(1, 5, 0)];
    var c := Apply(b, Authenticate(0, 7));
    RunsTo(Start, Accept(5), [CloseCallback(5), Authenticate(0, 7)]);
    RunsTo(a, CloseCallback(5), [Authenticate(0, 7)]);
    RunsTo(b, Authenticate(0, 7), []);
    assert 7 in c.users && !Live(c, c.users[7]);
  }

  lemma RunsTo(s: Server, step: Step, rest: seq<Step>)
    requires Legal(s, step)
    ensures AllLegal(s, [step] + rest) <==> AllLegal(Apply(s, step), rest)
    ensures AllLegal(Apply(s, step), rest) ==> Run(s, [step] + rest) == Run(Apply(s, step), rest)
  {
    assert ([step] + rest)[1..] == rest;
  }

  // ---------- live sessions are listed ----------

  /** Every authenticated session in the table is found under its uid. */
  predicate Listed(s: Server)
  {
    forall r :: 0 <= r < |s.objects| && Live(s, r) && s.objects[r].uid != 0 ==>
      s.objects[r].uid in s.users && s.users[s.objects[r].uid] == r
  }

  /** Another session in the table is listed under that uid and has it. */
  predicate TakesOver(s: Server, r: Ref, uid: Uid)
  {
    uid != 0 && uid in s.users && s.users[uid] != r && Live(s, s.users[uid]) && s.objects[s.users[uid]].uid == uid
  }

  /** An authentication keeps every session listed exactly if it takes no uid over. */
  lemma TakeoverUnlistsIff(s: Server, r: Ref, uid: Uid)
    requires Listed(s) && r < |s.objects|
    ensures Listed(SetUserInfo(s, r, uid)) <==> !TakesOver(s, r, uid)
  {
    var t := SetUserInfo(s, r, uid);
    forall q: Ref ensures Live(t, q) <==> Live(s, q) { SameLive(s, r, uid, q); }
    if TakesOver(s, r, uid) {
      assert Live(s, s.users[uid]);
      assert Live(t, s.users[uid]) && t.objects[s.users[uid]].uid == uid && t.users[uid] == r;
    }
  }

  lemma AcceptKeepsListed(s: Server, fd: Fd)
    requires Inv(s) && Listed(s) && Legal(s, Accept(fd))
    ensures Listed(Apply(s, Accept(fd)))
  {
    var t := Apply(s, Accept(fd));
    assert NextId(s) == s.counter + 1 && NextId(s) !in s.sessions;
    forall r: Ref | Live(t, r) && t.objects[r].uid != 0 ensures Live(s, r) && t.objects[r] == s.objects[r] {}
  }

  lemma CloseKeepsListed(s: Server, fd: Fd)
    requires Inv(s) && Listed(s) && Legal(s, CloseCallback(fd))
    ensures Listed(Apply(s, CloseCallback(fd)))
  {
    var t := Apply(s, CloseCallback(fd));
    forall r: Ref | Live(t, r) ensures Live(s, r) {}
  }

  lemma OthersKeepListed(s: Server, step: Step)
    requires Inv(s) && Listed(s) && Legal(s, step) && !step.Authenticate?
    ensures Listed(Apply(s, step))
  {
    hide OnConnected, OnDisConnected, Inv, Bijection, Sockets;
    match step
    case Accept(fd) => AcceptKeepsListed(s, fd);
    case CloseCallback(fd) => CloseKeepsListed(s, fd);
    case CloseSocket(fd) =>
  }

  predicate AlwaysListed(s: Server, steps: seq<Step>)
    requires AllLegal(s, steps)
    decreases |steps|
  {
    Listed(s) && (steps == [] || AlwaysListed(Apply(s, steps[0]), steps[1..]))
  }

  predicate NoTakeover(s: Server, steps: seq<Step>)
    requires AllLegal(s, steps)
    decreases |steps|
  {
    steps == [] ||
    ((steps[0].Authenticate? ==> !TakesOver(s, steps[0].session, steps[0].uid)) && NoTakeover(Apply(s, steps[0]), steps[1..]))
  }

  /** Over a whole run every live authenticated session is always found under its uid exactly if no
      authentication takes a uid over. */
  lemma {:induction false} ListedIff(s: Server, steps: seq<Step>)
    requires Inv(s) && Listed(s) && AllLegal(s, steps)
    ensures AlwaysListed(s, steps) <==> NoTakeover(s, steps)
    decreases |steps|
  {
    if steps != [] {
      hide Listed, TakesOver, Inv;
      var t := Apply(s, steps[0]);
      StepKeeps(s, steps[0]);
      if steps[0].Authenticate? {
        TakeoverUnlistsIff(s, steps[0].session, steps[0].uid);
      } else {
        OthersKeepListed(s, steps[0]);
      }
      if Listed(t) { ListedIff(t, steps[1..]); }
      assert !Listed(t) ==> !AlwaysListed(t, steps[1..]);
    }
  }

  /** A disconnect never takes the entry of another session away as long as every session is listed; in
      general it does exactly when its uid is listed for another one. */
  lemma DisconnectUnlistsIff(s: Server, fd: Fd)
    requires Inv(s) && fd in s.socketToSession
    ensures var r := s.sessions[s.socketToSession[fd]];
      var uid := s.objects[r].uid;
      ((exists u :: u in s.users && u !in OnDisConnected(s, fd).users && s.users[u] != r) <==>
       (uid != 0 && uid in s.users && s.users[uid] != r))
      && (Listed(s) ==> !(uid != 0 && uid in s.users && s.users[uid] != r))
  {
    var r := s.sessions[s.socketToSession[fd]];
    var uid := s.objects[r].uid;
    assert Live(s, r);
    if uid != 0 && uid in s.users && s.users[uid] != r {
      assert uid !in OnDisConnected(s, fd).users;
    }
  }

  /** A user logs in twice and the older connection closes: the newer session is in the table with the
      user's uid, and nobody is listed under it. */
  lemma DoubleLogin()
    ensures var steps := [Accept(5), Accept(6), Authenticate(0, 7), Authenticate(1, 7), CloseCallback(5)];
      AllLegal(Start, steps)
      && var s := Run(Start, steps); Live(s, 1) && s.objects[1].uid == 7 && s.users == map[] && !Listed(s)
  {
    hide Apply, Legal;
    LoginsFollow();
    RunsTo(Start, Accept(5), [Accept(6), Authenticate(0, 7), Authenticate(1, 7), CloseCallback(5)]);
    RunsTo(Login(1), Accept(6), [Authenticate(0, 7), Authenticate(1, 7), CloseCallback(5)]);
    RunsTo(Login(2), Authenticate(0, 7), [Authenticate(1, 7), CloseCallback(5)]);
    RunsTo(Login(3), Authenticate(1, 7), [CloseCallback(5)]);
    RunsTo(Login(4), CloseCallback(5), []);
    assert Live(Login(5), 1);
  }

  /** The states of that run. */
  function Login(k: nat): Server
  {
    var (a, b) := (Session(1, 5, if k >= 3 then 7 else 0), Session(2, 6, if k >= 4 then 7 else 0));
    if k <= 1 then Start.(counter := 1, open := {5}, objects := [a], socketToSession := map[5 := 1], sessions := map[1 := 0])
    else if k <= 4 then
      Start.(counter := 2, open := {5, 6}, objects := [a, b], socketToSession := map[5 := 1, 6 := 2],
             sessions := map[1 := 0, 2 := 1], users := if k == 2 then map[] else if k == 3 then map[7 := 0] else map[7 := 1])
    else
      Start.(counter := 2, open := {5, 6}, closing := {5}, objects := [a, b], socketToSession := map[6 := 2],
             sessions := map[2 := 1], toDelete := [0])
  }

  lemma LoginsFollow()
    ensures Legal(Start, Accept(5)) && Apply(Start, Accept(5)) == Login(1)
    ensures Legal(Login(1), Accept(6)) && Apply(Login(1), Accept(6)) == Login(2)
    ensures Legal(Login(2), Authenticate(0, 7)) && Apply(Login(2), Authenticate(0, 7)) == Login(3)
    ensures Legal(Login(3), Authenticate(1, 7)) && Apply(Login(3), Authenticate(1, 7)) == Login(4)
    ensures Legal(Login(4), CloseCallback(5)) && Apply(Login(4), CloseCallback(5)) == Login(5)
  {
    hide Legal, Apply, Login;
    AcceptsFollow();
    AuthenticationsFollow();
    CloseFollows();
  }

  lemma AcceptsFollow()
    ensures Legal(Start, Accept(5)) && Apply(Start, Accept(5)) == Login(1)
    ensures Legal(Login(1), Accept(6)) && Apply(Login(1), Accept(6)) == Login(2)
  {
    assert NextId(Start) == 1 && NextId(Login(1)) == 2;
  }

  lemma AuthenticationsFollow()
    ensures Legal(Login(2), Authenticate(0, 7)) && Apply(Login(2), Authenticate(0, 7)) == Login(3)
    ensures Legal(Login(3), Authenticate(1, 7)) && Apply(Login(3), Authenticate(1, 7)) == Login(4)
  {}

  lemma CloseFollows()
    ensures Legal(Login(4), CloseCallback(5)) && Apply(Login(4), CloseCallback(5)) == Login(5)
  {
    assert Login(4).socketToSession - {5} == map[6 := 2] && Login(4).sessions - {1} == map[2 := 1];
    var none: map<Uid, Ref> := map[];
    assert Login(4).users - {7} == none;
  }
}
