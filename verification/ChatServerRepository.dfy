/** StatusServer/Repository/ChatServerRepository.cpp over a Redis that always answers. */
module ChatServerRepository {
  import opened ChatServers
  import opened Wrappers

  class ChatServerRepository {
    var names: seq<string>
    var counts: map<string, CountText>
    var servers: map<string, Record>

    constructor (s: Store)
      ensures State() == s
    {
      names, counts, servers := s.names, s.counts, s.servers;
    }

    function State(): Store
      reads this
    {
      Store(names, counts, servers)
    }

    /** HINCRBY fails on a text that is not a number. */
    method IncrementConnectionCount(name: string) returns (success: bool)
      modifies this`counts
      ensures success == !(name in old(counts) && old(counts)[name].Garbage?)
      ensures !success ==> counts == old(counts)
      ensures success && name in old(counts) ==> counts == Added(old(counts), name, 1)
      ensures name !in old(counts) ==> counts == old(counts)[name := Number(1)]
    {
      success := HIncrBy(name, 1);
    }

    method HIncrBy(name: string, increment: int) returns (success: bool)
      modifies this`counts
      ensures success == !(name in old(counts) && old(counts)[name].Garbage?)
      ensures !success ==> counts == old(counts)
      ensures success && name in old(counts) ==> counts == Added(old(counts), name, increment)
      ensures name !in old(counts) ==> counts == old(counts)[name := Number(increment)]
    {
      if name !in counts {
        counts := counts[name := Number(increment)];
        return true;
      }
      if counts[name].Garbage? {
        return false;
      }
      counts := counts[name := Number(counts[name].n + increment)];
      return true;
    }

    /** A missing count becomes -1 and then 0. */
    method DecrementConnectionCount(name: string) returns (success: bool)
      modifies this`counts
      ensures success == !(name in old(counts) && old(counts)[name].Garbage?)
      ensures !success ==> counts == old(counts)
      ensures success && name in old(counts) ==> counts == Decremented(old(counts), name)
      ensures name !in old(counts) ==> counts == old(counts)[name := Number(0)]
    {
      success := HIncrBy(name, -1);
      if success {
        var count := GetConnectionCount(name);
        if count.Some? && count.value < 0 {
          counts := counts[name := Number(0)];
        }
      }
    }

    method GetConnectionCount(name: string) returns (count: Option<int>)
      ensures count == if name in counts && counts[name].Number? && INT_MIN <= counts[name].n <= INT_MAX
                       then Some(counts[name].n) else None
    {
      if name !in counts {
        return None;
      }
      match counts[name]
      case Number(n) => if INT_MIN <= n <= INT_MAX { return Some(n); } else { return None; }
      case Garbage => return None;
    }

    /** One turn's HGET: a missing count is stored as 0. */
    method ReadCount(serverName: string) returns (count: int)
      modifies this`counts
      ensures count == CountOf(old(counts), serverName)
      ensures counts == if serverName in old(counts) then old(counts) else old(counts)[serverName := Number(0)]
    {
      count := INT_MAX;
      if serverName in counts {
        match counts[serverName]
        case Number(n) => if INT_MIN <= n <= INT_MAX { count := n; }
        case Garbage =>
      } else {
        count := 0;
        counts := counts[serverName := Number(0)];
      }
    }

    /** The selection loop: keeps the first smallest. */
    method FindMinimum() returns (minServerName: string, minCount: int)
      modifies this`counts
      ensures counts == Initialised(old(counts), names)
      ensures (minServerName, minCount) == Least(Initialised(old(counts), names), names)
    {
      hide Initialised, Least, CountOf;
      minServerName, minCount := "", INT_MAX;
      ghost var was := counts;
      ghost var goal := Initialised(counts, names);
      LeastStarts(was, goal);
      for i := 0 to |names|
        invariant counts == Initialised(was, names[..i])
        invariant (minServerName, minCount) == Least(goal, names[..i])
      {
        LeastGoesOn(was, names, i, goal);
        var serverName := names[i];
        var count := ReadCount(serverName);
        if count < minCount {
          minCount := count;
          minServerName := serverName;
        }
      }
      assert names[..|names|] == names;
    }

    method GetServerWithMinConnections() returns (outcome: Outcome)
      modifies this`counts
      ensures (State(), outcome) == Allocate(old(State()))
    {
      if names == [] {
        assert Initialised(counts, names) == counts;
        return NoServer;
      }
      var minServerName, minCount := FindMinimum();
      if minServerName == "" {
        return NoServer;
      }
      ChosenIsNumber(old(State()), minServerName);
      var success := IncrementConnectionCount(minServerName);
      if !success {
        return NoServer;
      }
      var record := RecordOf(servers, minServerName);
      if record.host == "" || record.port.NoPort? {
        var _ := DecrementConnectionCount(minServerName);
        return Incomplete(minServerName);
      }
      if record.port.NotNumeric? || record.port.port < INT_MIN || record.port.port > INT_MAX {
        return Thrown(minServerName);
      }
      return Assigned(minServerName, Info(record.host, record.port.port % 0x1_0000,
                                          if record.name == "" then minServerName else record.name));
    }
  }

  lemma LeastStarts(was: map<string, CountText>, goal: map<string, CountText>)
    ensures Initialised(was, []) == was && Least(goal, []) == ("", INT_MAX)
  {}

  lemma SameCount(was: map<string, CountText>, names: seq<string>, name: string)
    ensures CountOf(Initialised(was, names), name) == CountOf(was, name)
  {}

  lemma LeastGoesOn(was: map<string, CountText>, names: seq<string>, i: nat, goal: map<string, CountText>)
    requires i < |names| && goal == Initialised(was, names)
    ensures var (c, x, least) := (Initialised(was, names[..i]), names[i], Least(goal, names[..i]));
      Initialised(was, names[..i + 1]) == (if x in c then c else c[x := Number(0)])
      && Least(goal, names[..i + 1]) == if CountOf(c, x) < least.1 then (x, CountOf(c, x)) else least
  {
    hide CountOf, Least, Initialised;
    InitialisedAppend(was, names[..i], names[i]);
    SameCount(was, names[..i], names[i]);
    SameCount(was, names, names[i]);
    assert names[..i + 1] == names[..i] + [names[i]];
    LeastAppend(goal, names[..i], names[i]);
  }

  lemma InitialisedAppend(was: map<string, CountText>, names: seq<string>, x: string)
    ensures var c := Initialised(was, names);
      Initialised(was, names + [x]) == if x in c then c else c[x := Number(0)]
  {
    var (c, d) := (Initialised(was, names), Initialised(was, names + [x]));
    forall name ensures name in d <==> name in c || name == x {}
  }

  lemma LeastAppend(goal: map<string, CountText>, names: seq<string>, x: string)
    ensures Least(goal, names + [x]) == if CountOf(goal, x) < Least(goal, names).1 then (x, CountOf(goal, x)) else Least(goal, names)
  {
    assert (names + [x])[..|names|] == names;
  }
}
