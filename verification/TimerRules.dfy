/** When a timer of net/Timer.cpp fires, over any schedule of checks by net/EventLoop.cpp. */
module TimerRules {
  datatype Mode = FixedInterval | FixedRate

  /** `fires` records the times at which the task ran. A repeat count of -1 means forever. */
  datatype TimerState = TimerState(interval: int, repeated: int, mode: Mode, next: int, fires: seq<int>)

  function Created(now: int, interval: int, repeated: int, mode: Mode): TimerState
  {
    TimerState(interval, repeated, mode, now + interval, [])
  }

  /** doTimer */
  function Fire(t: TimerState, now: int): TimerState
  {
    if t.repeated == 0 then t
    else
      var left := if t.repeated > 0 then t.repeated - 1 else t.repeated;
      t.(repeated := left,
         next := if left > 0 || left == -1 then (if t.mode.FixedInterval? then t.next + t.interval else now + t.interval) else t.next,
         fires := t.fires + [now])
  }

  /** The guard in checkAndDoTimers. */
  function Check(t: TimerState, now: int): TimerState
  {
    if now >= t.next then Fire(t, now) else t
  }

  /** The clock readings may be in any order and repeat, as they do for a timer listed twice. */
  function Checks(t: TimerState, times: seq<int>): TimerState
    decreases |times|
  {
    if times == [] then t else Checks(Check(t, times[0]), times[1..])
  }

  /** What a timer created at `start` with repeat count `count` keeps. */
  predicate Regular(t: TimerState, start: int, count: int)
  {
    && t.repeated >= -1
    && (count >= 0 ==> t.repeated >= 0 && |t.fires| + t.repeated == count)
    && (t.mode.FixedInterval? && t.repeated != 0 ==> t.next == start + (|t.fires| + 1) * t.interval)
    && (t.mode.FixedInterval? ==> forall j :: 0 <= j < |t.fires| ==> t.fires[j] >= start + (j + 1) * t.interval)
    && (t.mode.FixedRate? && t.repeated != 0 && t.fires != [] ==> t.next == t.fires[|t.fires| - 1] + t.interval)
    && (t.mode.FixedRate? ==> forall j :: 0 <= j < |t.fires| - 1 ==> t.fires[j + 1] >= t.fires[j] + t.interval)
  }

  lemma CheckKeeps(t: TimerState, now: int, start: int, count: int)
    requires Regular(t, start, count)
    ensures Regular(Check(t, now), start, count)
    ensures Check(t, now).interval == t.interval && Check(t, now).mode == t.mode
  {
    var k := |t.fires|;
    assert (k + 2) * t.interval == (k + 1) * t.interval + t.interval;
  }

  lemma {:induction false} ChecksKeep(t: TimerState, times: seq<int>, start: int, count: int)
    requires Regular(t, start, count)
    ensures var u := Checks(t, times);
      Regular(u, start, count) && u.interval == t.interval && u.mode == t.mode
    decreases |times|
  {
    if times != [] {
      CheckKeeps(t, times[0], start, count);
      ChecksKeep(Check(t, times[0]), times[1..], start, count);
    }
  }

  /** Any schedule of checks: with a repeat count n >= 0 the timer fires at most n times; in
      fixed-interval mode fire number j (from 1) is never before start + j * interval, without drift; in
      fixed-rate mode fires are at least an interval apart. */
  lemma Safety(start: int, interval: int, count: int, mode: Mode, times: seq<int>)
    requires count >= -1
    ensures var fires := Checks(Created(start, interval, count, mode), times).fires;
      (count >= 0 ==> |fires| <= count)
      && (mode.FixedInterval? ==> forall j :: 0 <= j < |fires| ==> fires[j] >= start + (j + 1) * interval)
      && (mode.FixedRate? ==> forall j :: 0 <= j < |fires| - 1 ==> fires[j + 1] >= fires[j] + interval)
  {
    ChecksKeep(Created(start, interval, count, mode), times, start, count);
  }

  lemma {:induction false} ChecksAppend(t: TimerState, times: seq<int>, now: int)
    ensures Checks(t, times + [now]) == Check(Checks(t, times), now)
    decreases |times|
  {
    if times == [] {
      assert Checks(Check(t, now), [now][1..]) == Check(t, now);
    } else {
      assert (times + [now])[1..] == times[1..] + [now];
      ChecksAppend(Check(t, times[0]), times[1..], now);
    }
  }

  // ---------- exactly which checks fire ----------

  /** When the next fire is due, told from the fires so far. */
  function Deadline(start: int, interval: int, mode: Mode, fires: seq<int>): int
  {
    if mode.FixedInterval? then start + (|fires| + 1) * interval
    else if fires == [] then start + interval
    else fires[|fires| - 1] + interval
  }

  /** With Regular, it says where the deadline of a timer is that has not fired yet. */
  predicate Scheduled(t: TimerState, start: int)
  {
    t.repeated != 0 ==> t.next == Deadline(start, t.interval, t.mode, t.fires)
  }

  lemma CheckSchedules(t: TimerState, now: int, start: int, count: int)
    requires Regular(t, start, count) && Scheduled(t, start)
    ensures Scheduled(Check(t, now), start)
  {
    CheckKeeps(t, now, start, count);
  }

  lemma {:induction false} ChecksSchedule(t: TimerState, times: seq<int>, start: int, count: int)
    requires Regular(t, start, count) && Scheduled(t, start)
    ensures Scheduled(Checks(t, times), start)
    decreases |times|
  {
    if times != [] {
      CheckKeeps(t, times[0], start, count);
      CheckSchedules(t, times[0], start, count);
      ChecksSchedule(Check(t, times[0]), times[1..], start, count);
    }
  }

  /** After any schedule of checks the next one fires, and at its own reading, exactly if the timer has
      repeats left and the reading has reached the deadline, however late it is. */
  lemma CheckFiresIff(start: int, interval: int, count: int, mode: Mode, times: seq<int>, now: int)
    requires count >= -1
    ensures var t0 := Created(start, interval, count, mode);
      var fires := Checks(t0, times).fires;
      Checks(t0, times + [now]).fires ==
        if (count == -1 || |fires| < count) && now >= Deadline(start, interval, mode, fires) then fires + [now] else fires
  {
    var t0 := Created(start, interval, count, mode);
    ChecksKeep(t0, times, start, count);
    ForeverStays(t0, times);
    ChecksSchedule(t0, times, start, count);
    ChecksAppend(t0, times, now);
  }

  /** Repeating forever is kept, and nothing becomes it. */
  lemma {:induction false} ForeverStays(t: TimerState, times: seq<int>)
    requires t.repeated >= -1
    ensures Checks(t, times).repeated == -1 <==> t.repeated == -1
    decreases |times|
  {
    if times != [] { ForeverStays(Check(t, times[0]), times[1..]); }
  }

  /** So a timer with repeats left fires at the first reading that has reached its deadline. */
  lemma {:induction false} FiresAtFirstReading(t: TimerState, times: seq<int>, k: nat)
    requires k < |times| && t.repeated != 0 && times[k] >= t.next
    requires forall i :: 0 <= i < k ==> times[i] < t.next
    ensures Checks(t, times[..k + 1]).fires == t.fires + [times[k]]
    decreases k
  {
    var ts := times[..k + 1];
    if k > 0 {
      assert ts[1..] == times[1..][..k];
      FiresAtFirstReading(t, times[1..], k - 1);
    } else {
      assert Checks(Check(t, times[0]), ts[1..]) == Check(t, times[0]);
    }
  }

  function Deadlines(start: int, interval: int, k: nat): (ds: seq<int>)
    ensures |ds| == k
  {
    if k == 0 then [] else Deadlines(start, interval, k - 1) + [start + k * interval]
  }

  /** Checked at its own deadlines a timer of either mode fires at each of them until its repeat count is
      used up, and never after. */
  lemma {:induction false} OnTime(start: int, interval: int, count: int, mode: Mode, k: nat)
    requires count >= -1
    ensures var t := Checks(Created(start, interval, count, mode), Deadlines(start, interval, k));
      t.fires == Deadlines(start, interval, if 0 <= count < k then count else k)
      && t.repeated == (if count == -1 then -1 else if count < k then 0 else count - k)
      && (t.repeated != 0 ==> t.next == start + (k + 1) * interval)
      && t.interval == interval && t.mode == mode
  {
    if k > 0 {
      OnTime(start, interval, count, mode, k - 1);
      ChecksAppend(Created(start, interval, count, mode), Deadlines(start, interval, k - 1), start + k * interval);
      assert (k + 1) * interval == k * interval + interval;
    }
  }
}
