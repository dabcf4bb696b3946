/** The least-loaded choice of StatusServer/Repository/ChatServerRepository.cpp. Redis is a list of
    names, a hash of counts and a hash per server; HINCRBY is atomic and succeeds on numbers. */
module ChatServers {
  const INT_MAX := 0x7FFF_FFFF
  const INT_MIN := -0x8000_0000

  /** A stored count: the number std::stoi finds in it, or a text in which it finds none. */
  datatype CountText = Number(n: int) | Garbage

  datatype PortText = NoPort | Numeric(port: int) | NotNumeric

  datatype Record = Record(host: string, port: PortText, name: string)

  datatype Store = Store(names: seq<string>, counts: map<string, CountText>, servers: map<string, Record>)

  datatype Info = Info(host: string, port: int, name: string)

  /** How a request ends: with a server, with none chosen, with one whose host or port is missing, or
      with one whose port makes std::stoi throw past the rollback. */
  datatype Outcome = Assigned(server: string, info: Info) | NoServer | Incomplete(server: string) | Thrown(server: string)

  /** The count the selection loop sees; a missing one counts as 0, one that stoi refuses as INT_MAX. */
  function CountOf(counts: map<string, CountText>, name: string): (c: int)
    ensures INT_MIN <= c <= INT_MAX
  {
    if name !in counts then 0
    else match counts[name]
      case Number(n) => if INT_MIN <= n <= INT_MAX then n else INT_MAX
      case Garbage => INT_MAX
  }

  /** Missing counts are stored as 0 on the way. */
  function Initialised(counts: map<string, CountText>, names: seq<string>): map<string, CountText>
  {
    (map name | name in names && name !in counts :: Number(0)) + counts
  }

  function RecordOf(servers: map<string, Record>, name: string): Record
  {
    if name in servers then servers[name] else Record("", NoPort, "")
  }

  /** Name and count the loop ends with; the empty name stands for none. */
  function Least(counts: map<string, CountText>, names: seq<string>): (r: (string, int))
    ensures r.1 <= INT_MAX
  {
    if names == [] then ("", INT_MAX)
    else
      var last := names[|names| - 1];
      var before := Least(counts, names[..|names| - 1]);
      if CountOf(counts, last) < before.1 then (last, CountOf(counts, last)) else before
  }

  function Added(counts: map<string, CountText>, name: string, delta: int): map<string, CountText>
    requires name in counts && counts[name].Number?
  {
    counts[name := Number(counts[name].n + delta)]
  }

  /** decrementConnectionCount: negative results are set to 0. */
  function Decremented(counts: map<string, CountText>, name: string): map<string, CountText>
    requires name in counts && counts[name].Number?
  {
    var c := Added(counts, name, -1);
    if INT_MIN <= c[name].n < 0 then c[name := Number(0)] else c
  }

  predicate Chosen(s: Store, x: string)
  {
    var counts := Initialised(s.counts, s.names);
    x != "" && x == Least(counts, s.names).0
  }

  /** The loop ends with the first server of smallest count, at position i, or with none when every count
      reads as INT_MAX. */
  lemma {:induction false} LeastIsFirstMinimum(counts: map<string, CountText>, names: seq<string>) returns (i: nat)
    ensures forall j :: 0 <= j < |names| ==> Least(counts, names).1 <= CountOf(counts, names[j])
    ensures Least(counts, names).1 < INT_MAX ==>
      i < |names| && names[i] == Least(counts, names).0 && CountOf(counts, names[i]) == Least(counts, names).1
    ensures Least(counts, names).1 < INT_MAX ==> forall j :: 0 <= j < i ==> CountOf(counts, names[j]) > Least(counts, names).1
    ensures Least(counts, names).1 == INT_MAX ==> Least(counts, names).0 == ""
  {
    hide CountOf;
    i := 0;
    if names != [] {
      var n := |names| - 1;
      var shorter := names[..n];
      assert forall j :: 0 <= j < n ==> shorter[j] == names[j];
      i := LeastIsFirstMinimum(counts, shorter);
      if CountOf(counts, names[n]) < Least(counts, shorter).1 {
        i := n;
      }
    }
  }

  /** A chosen server has a stored number below INT_MAX. */
  lemma ChosenIsNumber(s: Store, x: string)
    requires Chosen(s, x)
    ensures var counts := Initialised(s.counts, s.names);
      x in s.names && x in counts && counts[x].Number? && counts[x].n == CountOf(counts, x) == Least(counts, s.names).1 < INT_MAX
  {
    var _ := LeastIsFirstMinimum(Initialised(s.counts, s.names), s.names);
  }

  /** getServerWithMinConnections */
  function Allocate(s: Store): (r: (Store, Outcome))
  {
    var counts := Initialised(s.counts, s.names);
    var x := Least(counts, s.names).0;
    if x == "" then (s.(counts := counts), NoServer)
    else
      ChosenIsNumber(s, x);
      var up := Added(counts, x, 1);
      var record := RecordOf(s.servers, x);
      if record.host == "" || record.port.NoPort? then (s.(counts := Decremented(up, x)), Incomplete(x))
      else if record.port.NotNumeric? || !(INT_MIN <= record.port.port <= INT_MAX) then (s.(counts := up), Thrown(x))
      else
        (s.(counts := up),
         Assigned(x, Info(record.host, record.port.port % 0x1_0000, if record.name == "" then x else record.name)))
  }

  /** A success increments exactly one server, which was a minimum, and hands out that server's host, its
      port as 16 bits hold it, and its name, for which the listed name stands in if the record has none. */
  lemma SuccessIncrementsAMinimum(s: Store, name: string)
    requires Allocate(s).1.Assigned?
    ensures var (t, o) := Allocate(s);
      o.server in s.names
      && o.info.host == RecordOf(s.servers, o.server).host != ""
      && RecordOf(s.servers, o.server).port.Numeric?
      && 0 <= o.info.port < 0x1_0000 && (RecordOf(s.servers, o.server).port.port - o.info.port) % 0x1_0000 == 0
      && o.info.name != "" && o.info.name in {RecordOf(s.servers, o.server).name, o.server}
      && (RecordOf(s.servers, o.server).name != "" ==> o.info.name == RecordOf(s.servers, o.server).name)
      && (name in s.names ==> CountOf(s.counts, o.server) <= CountOf(s.counts, name))
      && CountOf(t.counts, name) == CountOf(s.counts, name) + if name == o.server then 1 else 0
  {
    var counts := Initialised(s.counts, s.names);
    ChosenIsNumber(s, Allocate(s).1.server);
    var _ := LeastIsFirstMinimum(counts, s.names);
    assert forall n :: CountOf(counts, n) == CountOf(s.counts, n);
  }

  /** The record names no host or no port. */
  predicate Lacking(r: Record)
  {
    r.host == "" || r.port.NoPort?
  }

  /** The record has a host, and a port that std::stoi refuses. */
  predicate Throwing(r: Record)
  {
    r.host != "" && (r.port.NotNumeric? || (r.port.Numeric? && !(INT_MIN <= r.port.port <= INT_MAX)))
  }

  /** What one request does to a server's count: it grows by one if the server is handed out or its port
      throws, and a negative one becomes 0 if the server's record is lacking. */
  predicate CountMoves(s: Store, name: string)
  {
    var ((t, o), c) := (Allocate(s), CountOf(s.counts, name));
    CountOf(t.counts, name) ==
      if o.NoServer? || o.server != name then c
      else if o.Incomplete? then if c < 0 then 0 else c
      else c + 1
  }

  lemma OneRequest(s: Store, name: string)
    ensures CountMoves(s, name)
    ensures Allocate(s).0.names == s.names && Allocate(s).0.servers == s.servers
  {
    var counts := Initialised(s.counts, s.names);
    assert CountOf(counts, name) == CountOf(s.counts, name);
    if Least(counts, s.names).0 != "" { ChosenIsNumber(s, Least(counts, s.names).0); }
  }

  /** When a request fails: no server can be chosen, or the chosen one's record is lacking or throws. All of
      it can be seen in the store beforehand. */
  lemma OutcomeIs(s: Store)
    ensures var (x, o) := (Least(Initialised(s.counts, s.names), s.names).0, Allocate(s).1);
      (o.NoServer? <==> x == "") && (x != "" ==> o.server == x)
      && (o.Incomplete? <==> x != "" && Lacking(RecordOf(s.servers, x)))
      && (o.Thrown? <==> x != "" && Throwing(RecordOf(s.servers, x)))
  {}

  /** A request that hands nothing out leaves every count as it was exactly if no server can be chosen, or
      the chosen one's count is not negative and its record names no host or no port. A port that throws is
      the failing family: the exception passes by the rollback. */
  lemma FailureRestoresIff(s: Store)
    requires !Allocate(s).1.Assigned?
    ensures var x := Least(Initialised(s.counts, s.names), s.names).0;
      (forall name :: CountOf(Allocate(s).0.counts, name) == CountOf(s.counts, name)) <==>
      (x == "" || (CountOf(s.counts, x) >= 0 && Lacking(RecordOf(s.servers, x))))
  {
    hide CountOf, Least, Allocate;
    OutcomeIs(s);
    var x := Least(Initialised(s.counts, s.names), s.names).0;
    OneRequest(s, x);
    if x == "" || (CountOf(s.counts, x) >= 0 && Lacking(RecordOf(s.servers, x))) {
      forall name ensures CountOf(Allocate(s).0.counts, name) == CountOf(s.counts, name) { OneRequest(s, name); }
    }
  }

  /** What a request does to the stored texts: afterwards every listed server has one, a missing one having
      been made 0, and only the chosen server's was changed otherwise. */
  lemma TextsAfter(s: Store, name: string)
    ensures var (t, o) := Allocate(s);
      (name in t.counts <==> name in s.counts || name in s.names)
      && (name in s.counts && (o.NoServer? || name != o.server) ==> t.counts[name] == s.counts[name])
      && (name in s.names && name !in s.counts && (o.NoServer? || name != o.server) ==> t.counts[name] == Number(0))
  {
    if !Allocate(s).1.NoServer? { ChosenIsNumber(s, Allocate(s).1.server); }
  }

  /** The rollback takes one off and never leaves a count below zero that std::stoi can read, but one at the
      lowest int. */
  lemma DecrementedIs(counts: map<string, CountText>, x: string)
    requires x in counts && counts[x].Number?
    ensures var (n, c) := (counts[x].n, Decremented(counts, x));
      c == counts[x := c[x]] && c[x] == Number(if INT_MIN < n <= 0 then 0 else n - 1)
  {}

  // ---------- balance ----------

  /** No two servers' counts differ by more than one. */
  predicate Balanced(s: Store)
  {
    forall a, b :: a in s.names && b in s.names ==> CountOf(s.counts, a) <= CountOf(s.counts, b) + 1
  }

  /** Ports that are present are numeric, and no count is negative. */
  predicate Sound(s: Store)
  {
    forall a :: a in s.names ==>
      CountOf(s.counts, a) >= 0
      && match RecordOf(s.servers, a).port
         case Numeric(p) => INT_MIN <= p <= INT_MAX
         case NotNumeric => RecordOf(s.servers, a).host == ""
         case NoPort => true
  }

  lemma StaysBalanced(s: Store)
    requires Balanced(s) && Sound(s)
    ensures var t := Allocate(s).0; Balanced(t) && Sound(t) && t.names == s.names && t.servers == s.servers
  {
    hide Initialised, Least;
    var (t, o) := Allocate(s);
    if o.Assigned? {
      forall name ensures
        (name in s.names ==> CountOf(s.counts, o.server) <= CountOf(s.counts, name))
        && CountOf(t.counts, name) == CountOf(s.counts, name) + if name == o.server then 1 else 0
      {
        SuccessIncrementsAMinimum(s, name);
      }
    } else {
      if !o.NoServer? { ChosenIsNumber(s, o.server); }
      FailureRestoresIff(s);
    }
  }

  function AllocateMany(s: Store, k: nat): Store
    decreases k
  {
    if k == 0 then s else AllocateMany(Allocate(s).0, k - 1)
  }

  /** Greedy balance: any number of requests without releases keeps the counts within one of each other,
      in particular from equal counts. */
  lemma {:induction false} GreedyBalance(s: Store, k: nat)
    requires Sound(s) && Balanced(s)
    ensures Balanced(AllocateMany(s, k))
    decreases k
  {
    if k > 0 {
      StaysBalanced(s);
      GreedyBalance(Allocate(s).0, k - 1);
    }
  }

  // ---------- counts over many requests ----------

  /** A port that throws raises exactly the chosen server's count, although nobody got the server. */
  lemma ThrowingLeaks(s: Store, name: string)
    requires Allocate(s).1.Thrown?
    ensures CountOf(Allocate(s).0.counts, name) == CountOf(s.counts, name) + if name == Allocate(s).1.server then 1 else 0
  {
    OneRequest(s, name);
  }

  /** How k requests in a row end. */
  function Outcomes(s: Store, k: nat): (os: seq<Outcome>)
    ensures |os| == k
    decreases k
  {
    if k == 0 then [] else [Allocate(s).1] + Outcomes(Allocate(s).0, k - 1)
  }

  /** How often a server was handed out, and how often its port threw. */
  function Grants(os: seq<Outcome>, name: string): nat
  {
    if os == [] then 0 else (if os[0].Assigned? && os[0].server == name then 1 else 0) + Grants(os[1..], name)
  }

  function Throws(os: seq<Outcome>, name: string): nat
  {
    if os == [] then 0 else (if os[0] == Thrown(name) then 1 else 0) + Throws(os[1..], name)
  }

  /** Whether requests find a server's record lacking never changes, for they change only counts. */
  lemma {:induction false} LackingStays(s: Store, k: nat, name: string)
    ensures Incomplete(name) in Outcomes(s, k) ==> Lacking(RecordOf(s.servers, name))
    ensures Lacking(RecordOf(s.servers, name)) ==> Grants(Outcomes(s, k), name) == 0 == Throws(Outcomes(s, k), name)
    decreases k
  {
    if k > 0 {
      OutcomeIs(s);
      OneRequest(s, name);
      LackingStays(Allocate(s).0, k - 1, name);
    }
  }

  /** So it adds up: over any number of requests a server's count grows by the times it was
      handed out and the times its port threw, although nobody got it then. (Only a negative count is not
      just added to: it becomes 0 when the record is found lacking.) */
  lemma {:induction false} CountsGrow(s: Store, k: nat, name: string)
    ensures CountOf(AllocateMany(s, k).counts, name) ==
      if CountOf(s.counts, name) < 0 && Incomplete(name) in Outcomes(s, k) then 0
      else CountOf(s.counts, name) + Grants(Outcomes(s, k), name) + Throws(Outcomes(s, k), name)
    decreases k
  {
    if k > 0 {
      hide Allocate, CountOf;
      var (t, o) := Allocate(s);
      OneRequest(s, name);
      CountsGrow(t, k - 1, name);
      LackingStays(s, k, name);
      LackingStays(t, k - 1, name);
      assert Outcomes(s, k) == [o] + Outcomes(t, k - 1);
      assert Outcomes(s, k)[1..] == Outcomes(t, k - 1);
    }
  }

  /** Where all ports throw, every request does until some server's count has reached INT_MAX: k requests
      raise the counts by k, and nobody got a server. */
  lemma {:induction false} AllThrow(s: Store, k: nat, x: string)
    requires x in s.names && "" !in s.names && CountOf(s.counts, x) + k <= INT_MAX
    requires forall name :: name in s.names ==> Throwing(RecordOf(s.servers, name))
    ensures forall i :: 0 <= i < k ==> Outcomes(s, k)[i].Thrown?
    decreases k
  {
    if k > 0 {
      var counts := Initialised(s.counts, s.names);
      assert CountOf(counts, x) == CountOf(s.counts, x);
      var _ := LeastIsFirstMinimum(counts, s.names);
      OutcomeIs(s);
      OneRequest(s, x);
      AllThrow(Allocate(s).0, k - 1, x);
    }
  }
}
