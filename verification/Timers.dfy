/** net/Timer.cpp and the timer lists of net/EventLoop.cpp, on the loop's own thread. */
module Timers {
  import opened TimerRules

  class Timer {
    const id: int
    const interval: int
    const mode: Mode
    var repeated: int
    var next: int
    ghost var fires: seq<int>

    constructor (id: int, now: int, interval: int, repeated: int, mode: Mode)
      ensures this.id == id && State() == Created(now, interval, repeated, mode)
    {
      this.id, this.interval, this.mode, this.repeated := id, interval, mode, repeated;
      next := now + interval;
      fires := [];
    }

    ghost function State(): TimerState
      reads this
    {
      TimerState(interval, repeated, mode, next, fires)
    }

    /** `fired` tells that the task ran. */
    method DoTimer(now: int) returns (fired: bool)
      modifies this
      ensures State() == Fire(old(State()), now) && fired == (old(repeated) != 0)
    {
      if repeated > 0 {
        repeated := repeated - 1;
      } else if repeated == 0 {
        return false;
      }
      if repeated > 0 || repeated == -1 {
        match mode
        case FixedInterval => next := next + interval;
        case FixedRate => next := now + interval;
      }
      fires := fires + [now];
      return true;
    }
  }

  /** Whether a check at this time runs the task. */
  predicate Due(t: TimerState, now: int)
  {
    now >= t.next && t.repeated != 0
  }

  /** What a callback asks of the loop. */
  datatype Request = Add(timer: Timer) | Remove(id: int)

  function Without(list: seq<Timer>, id: int): seq<Timer>
  {
    if list == [] then [] else if list[0].id == id then list[1..] else [list[0]] + Without(list[1..], id)
  }

  lemma {:induction false} WithoutAt(list: seq<Timer>, i: nat, id: int)
    requires i <= |list| && (forall j :: 0 <= j < i ==> list[j].id != id) && (i < |list| ==> list[i].id == id)
    ensures Without(list, id) == if i < |list| then list[..i] + list[i + 1..] else list
  {
    if i > 0 {
      WithoutAt(list[1..], i - 1, id);
      assert list == [list[0]] + list[1..];
    }
  }

  function WithoutAll(list: seq<Timer>, ids: seq<int>): seq<Timer>
    decreases |ids|
  {
    if ids == [] then list else WithoutAll(Without(list, ids[0]), ids[1..])
  }

  /** The entries with this id, in order. */
  function WithId(list: seq<Timer>, id: int): seq<Timer>
  {
    if list == [] then [] else (if list[0].id == id then [list[0]] else []) + WithId(list[1..], id)
  }

  function Occurrences(ids: seq<int>, id: int): nat
  {
    if ids == [] then 0 else (if ids[0] == id then 1 else 0) + Occurrences(ids[1..], id)
  }

  /** Removing takes out the first entry with the id and leaves those with others alone. */
  lemma {:induction false} WithoutTakesFirst(list: seq<Timer>, id: int, other: int)
    ensures WithId(Without(list, id), other) ==
      if id == other && WithId(list, id) != [] then WithId(list, id)[1..] else WithId(list, other)
  {
    if list != [] && list[0].id != id {
      WithoutTakesFirst(list[1..], id, other);
      assert Without(list, id)[1..] == Without(list[1..], id);
    }
  }

  /** Of the entries with an id, a list of removals takes out as many as the id occurs in it, from the front,
      and all if there are not so many. */
  lemma {:induction false} RemovalsTakeFirst(list: seq<Timer>, ids: seq<int>, id: int)
    ensures var (before, k) := (WithId(list, id), Occurrences(ids, id));
      WithId(WithoutAll(list, ids), id) == if k <= |before| then before[k..] else []
    decreases |ids|
  {
    if ids != [] {
      WithoutTakesFirst(list, ids[0], id);
      RemovalsTakeFirst(Without(list, ids[0]), ids[1..], id);
    }
  }

  function Adds(rs: seq<Request>): seq<Timer>
  {
    if rs == [] then [] else (if rs[0].Add? then [rs[0].timer] else []) + Adds(rs[1..])
  }

  function Removes(rs: seq<Request>): seq<int>
  {
    if rs == [] then [] else (if rs[0].Remove? then [rs[0].id] else []) + Removes(rs[1..])
  }

  lemma RequestsAppend(rs: seq<Request>, r: Request)
    ensures Adds(rs + [r]) == Adds(rs) + if r.Add? then [r.timer] else []
    ensures Removes(rs + [r]) == Removes(rs) + if r.Remove? then [r.id] else []
  {
    AddsConcat(rs, [r]);
    RemovesConcat(rs, [r]);
    assert [r][1..] == [];
  }

  function Count(list: seq<Timer>, t: Timer): nat
  {
    if list == [] then 0 else Count(list[..|list| - 1], t) + if list[|list| - 1] == t then 1 else 0
  }

  function Repeat(now: int, n: nat): (times: seq<int>)
    ensures |times| == n
  {
    if n == 0 then [] else Repeat(now, n - 1) + [now]
  }

  class TimerLists {
    var m_timers: seq<Timer>
    var m_pendingAddTimer: seq<Timer>
    var m_pendingRemoveTimer: seq<int>
    var m_isCheckingTimer: bool

    constructor ()
      ensures m_timers == [] && m_pendingAddTimer == [] && m_pendingRemoveTimer == [] && !m_isCheckingTimer
    {
      m_timers, m_pendingAddTimer, m_pendingRemoveTimer, m_isCheckingTimer := [], [], [], false;
    }

    /** Deferred while the list is being walked. */
    method AddTimerInternal(timer: Timer)
      modifies this
      ensures m_isCheckingTimer == old(m_isCheckingTimer) && m_pendingRemoveTimer == old(m_pendingRemoveTimer)
      ensures if m_isCheckingTimer then m_timers == old(m_timers) && m_pendingAddTimer == old(m_pendingAddTimer) + [timer]
              else m_timers == old(m_timers) + [timer] && m_pendingAddTimer == old(m_pendingAddTimer)
    {
      if m_isCheckingTimer {
        m_pendingAddTimer := m_pendingAddTimer + [timer];
      } else {
        m_timers := m_timers + [timer];
      }
    }

    /** Takes out the first entry with this id, if there is one. */
    method RemoveTimerInternal(id: int)
      modifies this
      ensures m_isCheckingTimer == old(m_isCheckingTimer) && m_pendingAddTimer == old(m_pendingAddTimer)
      ensures if m_isCheckingTimer then m_timers == old(m_timers) && m_pendingRemoveTimer == old(m_pendingRemoveTimer) + [id]
              else m_timers == Without(old(m_timers), id) && m_pendingRemoveTimer == old(m_pendingRemoveTimer)
    {
      if m_isCheckingTimer {
        m_pendingRemoveTimer := m_pendingRemoveTimer + [id];
      } else {
        var i := 0;
        while i < |m_timers|
          invariant i <= |m_timers|
          invariant unchanged(this)
          invariant forall j :: 0 <= j < i ==> m_timers[j].id != id
        {
          if m_timers[i].id == id {
            WithoutAt(m_timers, i, id);
            m_timers := m_timers[..i] + m_timers[i + 1..];
            return;
          }
          i := i + 1;
        }
        WithoutAt(m_timers, i, id);
      }
    }

    /** What one callback asks for, made while the list is being walked. */
    method Callback(requests: seq<Request>)
      requires m_isCheckingTimer
      modifies this
      ensures m_isCheckingTimer && m_timers == old(m_timers)
      ensures m_pendingAddTimer == old(m_pendingAddTimer) + Adds(requests)
      ensures m_pendingRemoveTimer == old(m_pendingRemoveTimer) + Removes(requests)
    {
      for i := 0 to |requests|
        invariant m_isCheckingTimer && m_timers == old(m_timers)
        invariant m_pendingAddTimer == old(m_pendingAddTimer) + Adds(requests[..i])
        invariant m_pendingRemoveTimer == old(m_pendingRemoveTimer) + Removes(requests[..i])
      {
        assert requests[..i + 1] == requests[..i] + [requests[i]];
        RequestsAppend(requests[..i], requests[i]);
        match requests[i]
        case Add(t) => AddTimerInternal(t);
        case Remove(id) => RemoveTimerInternal(id);
      }
      assert requests[..|requests|] == requests;
    }

    /** One entry of the list. */
    method Visit(timer: Timer, now: int, requests: seq<Request>, ghost list: seq<Timer>) returns (ran: bool)
      requires m_isCheckingTimer && timer in list
      modifies this, timer
      ensures m_isCheckingTimer && m_timers == old(m_timers)
      ensures Snapshot(list) == old(Snapshot(list))[timer := Check(old(timer.State()), now)]
      ensures ran == Due(old(timer.State()), now)
      ensures m_pendingAddTimer == old(m_pendingAddTimer) + if ran then Adds(requests) else []
      ensures m_pendingRemoveTimer == old(m_pendingRemoveTimer) + if ran then Removes(requests) else []
    {
      ran := false;
      if now >= timer.next {
        ran := timer.DoTimer(now);
        if ran {
          Callback(requests);
        }
      }
    }

    /** `requests[i]` is what the callback of entry i asks for if it runs. Whatever they ask for, exactly
        the entries listed at the start are checked, once each and in order; only then the deferred
        requests, also those of earlier passes, take effect. */
    method CheckAndDoTimers(now: int, requests: seq<seq<Request>>) returns (fired: seq<bool>)
      requires !m_isCheckingTimer && |requests| == |m_timers|
      modifies this, m_timers
      ensures !m_isCheckingTimer && |fired| == |old(m_timers)|
      ensures Snapshot(old(m_timers)) == Walk(old(Snapshot(m_timers)), old(m_timers), now).0
      ensures fired == Walk(old(Snapshot(m_timers)), old(m_timers), now).1
      ensures FireWhenReached(old(Snapshot(m_timers)), old(m_timers), now, fired)
      ensures m_pendingAddTimer == old(m_pendingAddTimer) + Adds(Asked(requests, fired))
      ensures m_pendingRemoveTimer == old(m_pendingRemoveTimer) + Removes(Asked(requests, fired))
      ensures m_timers == WithoutAll(old(m_timers), m_pendingRemoveTimer) + m_pendingAddTimer
    {
      hide Check, Due, Adds, Removes, WithoutAll, Walk, Asked, Snapshot, FireWhenReached;
      m_isCheckingTimer := true;
      fired := [];
      var list := m_timers;
      ghost var was := Snapshot(list);
      NothingAsked(was, now);
      for i := 0 to |list|
        invariant m_isCheckingTimer && m_timers == list && |fired| == i
        invariant Snapshot(list) == Walk(was, list[..i], now).0 && fired == Walk(was, list[..i], now).1
        invariant m_pendingAddTimer == old(m_pendingAddTimer) + Adds(Asked(requests[..i], fired))
        invariant m_pendingRemoveTimer == old(m_pendingRemoveTimer) + Removes(Asked(requests[..i], fired))
      {
        assert Snapshot(list)[list[i]] == list[i].State() by { SnapshotAt(list, i); }
        var ran := Visit(list[i], now, requests[i], list);
        fired := fired + [ran];
        AskedMore(requests, fired, i);
        WalkMore(was, list, i, now);
      }
      FirstEntries(was, list, now);
      m_isCheckingTimer := false;
      assert list[..|list|] == list && requests[..|list|] == requests;
      Finish();
    }

    /** The deferred removals, then the deferred additions. The lists are not emptied. */
    method Finish()
      requires !m_isCheckingTimer
      modifies this
      ensures !m_isCheckingTimer && m_pendingAddTimer == old(m_pendingAddTimer) && m_pendingRemoveTimer == old(m_pendingRemoveTimer)
      ensures m_timers == WithoutAll(old(m_timers), m_pendingRemoveTimer) + m_pendingAddTimer
    {
      if m_pendingRemoveTimer != [] {
        var ids := m_pendingRemoveTimer;
        assert ids[0..] == ids;
        for i := 0 to |ids|
          invariant !m_isCheckingTimer && m_pendingAddTimer == old(m_pendingAddTimer) && m_pendingRemoveTimer == ids == old(m_pendingRemoveTimer)
          invariant WithoutAll(m_timers, ids[i..]) == WithoutAll(old(m_timers), ids)
        {
          assert ids[i..][1..] == ids[i + 1..];
          RemoveTimerInternal(ids[i]);
        }
        assert ids[|ids|..] == [];
      }
      if m_pendingAddTimer != [] {
        ghost var before := m_timers;
        var added := m_pendingAddTimer;
        for i := 0 to |added|
          invariant !m_isCheckingTimer && m_pendingAddTimer == added == old(m_pendingAddTimer)
          invariant m_pendingRemoveTimer == old(m_pendingRemoveTimer)
          invariant m_timers == before + added[..i]
        {
          AddTimerInternal(added[i]);
        }
        assert added[..|added|] == added;
      }
    }
  }

  lemma AskedMore(requests: seq<seq<Request>>, fired: seq<bool>, i: nat)
    requires |fired| == i + 1 <= |requests|
    ensures Adds(Asked(requests[..i + 1], fired)) ==
      Adds(Asked(requests[..i], fired[..i])) + if fired[i] then Adds(requests[i]) else []
    ensures Removes(Asked(requests[..i + 1], fired)) ==
      Removes(Asked(requests[..i], fired[..i])) + if fired[i] then Removes(requests[i]) else []
  {
    hide Adds, Removes, Asked;
    var before := Asked(requests[..i], fired[..i]);
    LastAsked(requests, fired, i);
    if fired[i] {
      AddsConcat(before, requests[i]);
      RemovesConcat(before, requests[i]);
    }
  }

  lemma LastAsked(requests: seq<seq<Request>>, fired: seq<bool>, i: nat)
    requires |fired| == i + 1 <= |requests|
    ensures Asked(requests[..i + 1], fired) ==
      if fired[i] then Asked(requests[..i], fired[..i]) + requests[i] else Asked(requests[..i], fired[..i])
  {
    assert requests[..i + 1][..i] == requests[..i];
  }

  lemma NothingAsked(was: map<Timer, TimerState>, now: int)
    ensures Adds(Asked([], [])) == [] && Removes(Asked([], [])) == [] && Walk(was, [], now) == (was, [])
  {}

  lemma {:induction false} AddsConcat(a: seq<Request>, b: seq<Request>)
    ensures Adds(a + b) == Adds(a) + Adds(b)
  {
    if a == [] {
      assert a + b == b;
    } else {
      AddsConcat(a[1..], b);
      HeadFirst(a, b);
    }
  }

  lemma {:induction false} RemovesConcat(a: seq<Request>, b: seq<Request>)
    ensures Removes(a + b) == Removes(a) + Removes(b)
  {
    if a == [] {
      assert a + b == b;
    } else {
      RemovesConcat(a[1..], b);
      HeadFirst(a, b);
    }
  }

  lemma HeadFirst(a: seq<Request>, b: seq<Request>)
    requires a != []
    ensures (a + b)[0] == a[0] && (a + b)[1..] == a[1..] + b
  {}

  ghost function Snapshot(list: seq<Timer>): (m: map<Timer, TimerState>)
    reads list
    ensures m.Keys == set t | t in list
  {
    map t | t in list :: t.State()
  }

  lemma SnapshotAt(list: seq<Timer>, i: nat)
    requires i < |list|
    ensures Snapshot(list)[list[i]] == list[i].State()
  {}

  /** The entries of a list checked one after the other: the states reached and which tasks ran. */
  ghost function Walk(was: map<Timer, TimerState>, list: seq<Timer>, now: int): (r: (map<Timer, TimerState>, seq<bool>))
    requires forall t :: t in list ==> t in was
    ensures r.0.Keys == was.Keys && |r.1| == |list|
  {
    if list == [] then (was, [])
    else
      var n := |list| - 1;
      var r := Walk(was, list[..n], now);
      var s := r.0[list[n]];
      (r.0[list[n] := Check(s, now)], r.1 + [Due(s, now)])
  }

  lemma WalkMore(was: map<Timer, TimerState>, list: seq<Timer>, i: nat, now: int)
    requires i < |list| && forall t :: t in list ==> t in was
    ensures var r := Walk(was, list[..i], now);
      Walk(was, list[..i + 1], now) == (r.0[list[i] := Check(r.0[list[i]], now)], r.1 + [Due(r.0[list[i]], now)])
  {
    assert list[..i + 1][..i] == list[..i];
  }

  /** The first entry of each timer fires exactly if the timer has repeats left and its deadline is
      reached. */
  ghost predicate FireWhenReached(was: map<Timer, TimerState>, list: seq<Timer>, now: int, fired: seq<bool>)
    requires (forall u :: u in list ==> u in was) && |fired| == |list|
  {
    forall i :: 0 <= i < |list| && list[i] !in list[..i] ==>
      fired[i] == (was[list[i]].repeated != 0 && now >= was[list[i]].next)
  }

  lemma FirstEntries(was: map<Timer, TimerState>, list: seq<Timer>, now: int)
    requires forall u :: u in list ==> u in was
    ensures FireWhenReached(was, list, now, Walk(was, list, now).1)
  {
    forall i | 0 <= i < |list| && list[i] !in list[..i]
      ensures Walk(was, list, now).1[i] == (was[list[i]].repeated != 0 && now >= was[list[i]].next)
    {
      FirstEntry(was, list, now, i);
    }
  }

  lemma {:induction false} FirstEntry(was: map<Timer, TimerState>, list: seq<Timer>, now: int, i: nat)
    requires forall u :: u in list ==> u in was
    requires i < |list| && list[i] !in list[..i]
    ensures var t := was[list[i]]; Walk(was, list, now).1[i] == (t.repeated != 0 && now >= t.next)
    decreases |list|
  {
    var n := |list| - 1;
    if i < n {
      assert list[..n][..i] == list[..i];
      FirstEntry(was, list[..n], now, i);
    } else {
      Unlisted(was, list[..n], now, list[n]);
    }
  }

  lemma {:induction false} Unlisted(was: map<Timer, TimerState>, list: seq<Timer>, now: int, t: Timer)
    requires (forall u :: u in list ==> u in was) && t in was && t !in list
    ensures Walk(was, list, now).0[t] == was[t]
  {
    if list != [] { Unlisted(was, list[..|list| - 1], now, t); }
  }

  /** A timer listed several times is checked that often, which TimerRules.Safety allows for. */
  lemma {:induction false} WalkChecks(was: map<Timer, TimerState>, list: seq<Timer>, now: int, t: Timer)
    requires (forall u :: u in list ==> u in was) && t in was
    ensures Walk(was, list, now).0[t] == Checks(was[t], Repeat(now, Count(list, t)))
  {
    if list != [] {
      var n := |list| - 1;
      WalkChecks(was, list[..n], now, t);
      if list[n] == t { ChecksAppend(was[t], Repeat(now, Count(list[..n], t)), now); }
    }
  }

  /** One pass keeps what every timer is owed, however often the timer is listed: its fires so far are
      within its repeat count and its schedule. */
  lemma PassKeeps(was: map<Timer, TimerState>, list: seq<Timer>, now: int, t: Timer, start: int, count: int)
    requires (forall u :: u in list ==> u in was) && t in was && Regular(was[t], start, count)
    ensures Regular(Walk(was, list, now).0[t], start, count)
  {
    WalkChecks(was, list, now, t);
    ChecksKeep(was[t], Repeat(now, Count(list, t)), start, count);
  }

  function Asked(requests: seq<seq<Request>>, fired: seq<bool>): seq<Request>
    requires |requests| == |fired|
  {
    if requests == [] then []
    else
      var n := |requests| - 1;
      Asked(requests[..n], fired[..n]) + if fired[n] then requests[n] else []
  }
}
