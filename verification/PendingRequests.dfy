/** Matching responses to requests in ZhKeyesIMClient/NetWork/TcpManager.cpp, as a state machine:
    drawing a number, storing a handler and the arrival of a message are separate steps, because
    they run on different threads. */
module PendingRequests {
  import opened Bytes
  import opened ImMessage

  /** A handler belongs to the request with this number; `callable` is false for an empty function. */
  datatype Handler = Handler(request: nat, callable: bool)

  /** Where a framed message went. */
  datatype Entry = Ran(handler: Handler, message: Message) | Dispatched(message: Message)

  /** `next` is the counter; `stored` the requests whose handler was stored at some time. */
  datatype Client = Client(next: nat, stored: set<nat>, pending: map<uint32, Handler>, log: seq<Entry>)

  const Start := Client(1, {}, map[], [])

  datatype Step = Generate | Store(request: nat, callable: bool) | Arrive(message: Message)

  /** The number as the 32-bit seqId field holds it. */
  function SeqIdOf(request: nat): uint32
  {
    request % 0x1_0000_0000
  }

  function StoreHandler(c: Client, h: Handler): Client
  {
    c.(stored := c.stored + {h.request}, pending := c.pending[SeqIdOf(h.request) := h])
  }

  /** handleResponseBySeqId, then the type dispatcher if that returned false. */
  function Respond(c: Client, m: Message): Client
  {
    var id := m.header.seqId;
    if id == 0 || id !in c.pending then c.(log := c.log + [Dispatched(m)])
    else
      var h := c.pending[id];
      c.(pending := c.pending - {id}, log := c.log + [if h.callable then Ran(h, m) else Dispatched(m)])
  }

  function Apply(c: Client, step: Step): Client
  {
    match step
    case Generate => c.(next := c.next + 1)
    case Store(n, callable) => StoreHandler(c, Handler(n, callable))
    case Arrive(m) => Respond(c, m)
  }

  /** Numbers are drawn before they are used and each request stores its handler once. */
  predicate Possible(c: Client, step: Step)
  {
    step.Store? ==> 1 <= step.request < c.next && step.request !in c.stored
  }

  /** Moreover at most 2^32 - 1 numbers are drawn. */
  predicate Legal(c: Client, step: Step)
  {
    Possible(c, step) && (step.Generate? ==> c.next < 0x1_0000_0000)
  }

  predicate PossibleRun(c: Client, steps: seq<Step>)
    decreases |steps|
  {
    steps == [] || (Possible(c, steps[0]) && PossibleRun(Apply(c, steps[0]), steps[1..]))
  }

  predicate LegalRun(c: Client, steps: seq<Step>)
    decreases |steps|
  {
    steps == [] || (Legal(c, steps[0]) && LegalRun(Apply(c, steps[0]), steps[1..]))
  }

  function Run(c: Client, steps: seq<Step>): Client
    decreases |steps|
  {
    if steps == [] then c else Run(Apply(c, steps[0]), steps[1..])
  }

  /** The messages of the arrivals, in order. */
  function Arrivals(steps: seq<Step>): seq<Message>
  {
    if steps == [] then []
    else if steps[0].Arrive? then [steps[0].message] + Arrivals(steps[1..]) else Arrivals(steps[1..])
  }

  function Messages(log: seq<Entry>): (ms: seq<Message>)
    ensures |ms| == |log|
  {
    if log == [] then [] else Messages(log[..|log| - 1]) + [log[|log| - 1].message]
  }

  ghost predicate Inv(c: Client)
  {
    && 1 <= c.next <= 0x1_0000_0000
    && (forall n :: n in c.stored ==> 1 <= n < c.next)
    && (forall id :: id in c.pending ==> c.pending[id].request == id && id in c.stored)
    && (forall i :: 0 <= i < |c.log| && c.log[i].Ran? ==>
          c.log[i].handler.request in c.stored && c.log[i].handler.request !in c.pending
          && c.log[i].message.header.seqId == c.log[i].handler.request)
    && (forall i, j :: 0 <= i < j < |c.log| && c.log[i].Ran? && c.log[j].Ran? ==>
          c.log[i].handler.request != c.log[j].handler.request)
  }

  /** A message goes to the handler stored under its number if there is one that can be called and the number
      is not 0, and to the dispatcher otherwise; then nothing is stored under a number other than 0, and all
      other numbers are as before. */
  lemma GoesToItsHandler(c: Client, m: Message, id: uint32)
    ensures var d := Respond(c, m);
      |d.log| == |c.log| + 1 && c.log == d.log[..|c.log|]
      && var e := d.log[|c.log|];
         e.message == m
         && (e.Ran? <==> m.header.seqId != 0 && m.header.seqId in c.pending && c.pending[m.header.seqId].callable)
         && (e.Ran? ==> e.handler == c.pending[m.header.seqId])
    ensures var d := Respond(c, m);
      d.next == c.next && d.stored == c.stored
      && (id in d.pending <==> id in c.pending && (id != m.header.seqId || id == 0))
      && (id in d.pending ==> d.pending[id] == c.pending[id])
  {}

  lemma StepKeeps(c: Client, step: Step)
    requires Inv(c) && Legal(c, step)
    ensures Inv(Apply(c, step))
    // No pending handler is overwritten:
    ensures step.Store? ==> SeqIdOf(step.request) !in c.pending
    ensures Messages(Apply(c, step).log) == Messages(c.log) + if step.Arrive? then [step.message] else []
  {
    var d := Apply(c, step);
    match step
    case Generate =>
    case Store(n, _) => assert SeqIdOf(n) == n;
    case Arrive(m) =>
      assert d.log[..|d.log| - 1] == c.log;
  }

  /** In every run of up to 2^32 - 1 requests no pending handler is ever overwritten, every handler
      runs at most once and only on a message with its own seqId, and every message goes to exactly
      one of its handler and the dispatcher, in order of arrival. */
  lemma {:induction false} RunsAreMatched(c: Client, steps: seq<Step>)
    requires Inv(c) && LegalRun(c, steps)
    ensures Inv(Run(c, steps))
    ensures Messages(Run(c, steps).log) == Messages(c.log) + Arrivals(steps)
    decreases |steps|
  {
    if steps != [] {
      StepKeeps(c, steps[0]);
      RunsAreMatched(Apply(c, steps[0]), steps[1..]);
    }
  }

  lemma FromStart(steps: seq<Step>)
    requires LegalRun(Start, steps)
    ensures Inv(Run(Start, steps)) && Messages(Run(Start, steps).log) == Arrivals(steps)
  {
    RunsAreMatched(Start, steps);
    assert Messages(Start.log) == [];
  }

  /** Handlers are filed under their own seqId, and only those that were stored. */
  ghost predicate Filed(c: Client)
  {
    forall id :: id in c.pending ==> SeqIdOf(c.pending[id].request) == id && c.pending[id].request in c.stored
  }

  lemma StepKeepsFiled(c: Client, step: Step)
    requires Filed(c)
    ensures Filed(Apply(c, step))
  {}

  /** So it is in every run, however many numbers are drawn. */
  lemma {:induction false} RunKeepsFiled(c: Client, steps: seq<Step>)
    requires Filed(c)
    ensures Filed(Run(c, steps))
    decreases |steps|
  {
    if steps != [] {
      StepKeepsFiled(c, steps[0]);
      RunKeepsFiled(Apply(c, steps[0]), steps[1..]);
    }
  }

  /** The requests that can be answered through their handler are exactly those whose number is not
      a multiple of 2^32, for that seqId reads as "none". */
  lemma AnswerableIff(c: Client, n: nat)
    requires Filed(c)
    ensures var d := StoreHandler(c, Handler(n, true));
      (exists m: Message :: Respond(d, m).log == c.log + [Ran(Handler(n, true), m)]) <==> SeqIdOf(n) != 0
  {
    var h := Handler(n, true);
    var d := StoreHandler(c, h);
    StepKeepsFiled(c, Store(n, true));
    if SeqIdOf(n) != 0 {
      var m := Message(Header(0, 0, 0, 0, SeqIdOf(n), 0, 0), []);
      assert Respond(d, m).log == c.log + [Ran(h, m)];
    } else {
      forall m: Message ensures Respond(d, m).log != c.log + [Ran(h, m)] {
        var e := Respond(d, m).log[|c.log|];
        assert e.Ran? ==> SeqIdOf(e.handler.request) == m.header.seqId != 0;
        assert (c.log + [Ran(h, m)])[|c.log|] == Ran(h, m);
      }
    }
  }

  /** In any run of any length, storing the handler of request n drives a pending one out exactly if a
      request is pending whose number is n modulo 2^32. */
  lemma StoreReplacesIff(steps: seq<Step>, n: nat, callable: bool)
    requires PossibleRun(Start, steps) && Possible(Run(Start, steps), Store(n, callable))
    ensures var c := Run(Start, steps);
      (exists h :: h in c.pending.Values && h !in Apply(c, Store(n, callable)).pending.Values)
      <==> (exists h :: h in c.pending.Values && h.request % 0x1_0000_0000 == n % 0x1_0000_0000)
  {
    RunKeepsFiled(Start, steps);
    var c := Run(Start, steps);
    var d := Apply(c, Store(n, callable));
    var id := SeqIdOf(n);
    forall k | k in c.pending && k != id ensures c.pending[k] in d.pending.Values {
      assert d.pending[k] == c.pending[k];
    }
    if h :| h in c.pending.Values && h.request % 0x1_0000_0000 == id {
      assert id in c.pending && c.pending[id] == h;
      assert Filed(d);
      assert h !in d.pending.Values;
    }
  }

  function Draws(k: nat): (steps: seq<Step>)
  {
    if k == 0 then [] else [Generate] + Draws(k - 1)
  }

  lemma {:induction false} DrawsRun(c: Client, k: nat, rest: seq<Step>)
    ensures var d := c.(next := c.next + k);
      Run(c, Draws(k) + rest) == Run(d, rest) && (PossibleRun(c, Draws(k) + rest) <==> PossibleRun(d, rest))
    decreases k
  {
    if k == 0 {
      assert Draws(0) + rest == rest;
    } else {
      var steps := Draws(k) + rest;
      assert steps[0] == Generate && steps[1..] == Draws(k - 1) + rest;
      DrawsRun(Apply(c, Generate), k - 1, rest);
    }
  }

  /** It does happen: one number more than 2^32 drawn, the handler of request 1 still pending when that of
      request 2^32 + 1 is stored. The first is gone without having run. */
  lemma WrapOverwrites()
    ensures var steps := Draws(0x1_0000_0001) + [Store(1, true), Store(0x1_0000_0001, true)];
      PossibleRun(Start, steps)
      && var c := Run(Start, steps); c.pending == map[1 := Handler(0x1_0000_0001, true)] && c.log == []
  {
    hide Draws;
    Overwrites(0x1_0000_0001);
  }

  lemma Overwrites(n: nat)
    requires n == 0x1_0000_0001
    ensures var steps := Draws(n) + [Store(1, true), Store(n, true)];
      PossibleRun(Start, steps)
      && var c := Run(Start, steps); c.pending == map[1 := Handler(n, true)] && c.log == []
  {
    hide Draws;
    var stores := [Store(1, true), Store(n, true)];
    DrawsRun(Start, n, stores);
    var c := Start.(next := 1 + n);
    assert SeqIdOf(1) == SeqIdOf(n) == 1;
    var d := Apply(c, Store(1, true));
    assert stores[1..] == [Store(n, true)] && stores[1..][1..] == [];
    assert Run(c, stores) == Run(d, stores[1..]) == Apply(d, Store(n, true));
    assert PossibleRun(Apply(d, Store(n, true)), []);
  }

  function RespondAll(c: Client, ms: seq<Message>): Client
    decreases |ms|
  {
    if ms == [] then c else RespondAll(Respond(c, ms[0]), ms[1..])
  }

  lemma {:induction false} RespondAllAppend(c: Client, ms: seq<Message>, more: seq<Message>)
    ensures RespondAll(c, ms + more) == RespondAll(RespondAll(c, ms), more)
    decreases |ms|
  {
    if ms == [] {
      assert ms + more == more;
    } else {
      assert (ms + more)[1..] == ms[1..] + more;
      RespondAllAppend(Respond(c, ms[0]), ms[1..], more);
    }
  }
}
