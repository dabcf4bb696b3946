/** What the framing loop of ZhkeyesIMServer/IMSession.cpp (and of its copy in
    ZhKeyesIMClient/NetWork/TcpManager.cpp) computes, and what a whole byte stream means,
    however it was cut into reads. */
module Framing {
  import opened Bytes
  import opened Wrappers
  import opened ImMessage
  import Codec

  /** One recv never returns more than this (net/TCPConnection.cpp). */
  const RECV_SIZE := 65536

  predicate MagicAt(s: seq<byte>, i: nat)
  {
    i + 4 <= |s| && ValueHighFirst(s[i..i + 4]) == PROTOCOL_MAGIC
  }

  /** The first offset in i..limit at which the magic begins, limit + 1 if there is none. */
  function FirstMagic(s: seq<byte>, i: nat, limit: nat): (k: nat)
    requires i <= limit + 1
    ensures i <= k <= limit + 1
    ensures forall j :: i <= j < k ==> !MagicAt(s, j)
    ensures k <= limit ==> MagicAt(s, k)
    decreases limit + 1 - i
  {
    if i > limit || MagicAt(s, i) then i else FirstMagic(s, i + 1, limit)
  }

  lemma FirstMagicIs(s: seq<byte>, limit: nat, k: nat)
    requires k <= limit + 1 && (forall j :: 0 <= j < k ==> !MagicAt(s, j)) && (k <= limit ==> MagicAt(s, k))
    ensures FirstMagic(s, 0, limit) == k
  {
    var f := FirstMagic(s, 0, limit);
    assert (f <= limit ==> MagicAt(s, f)) && (k < f ==> !MagicAt(s, k));
  }

  lemma MagicInSuffix(s: seq<byte>, k: nat, j: nat)
    requires k <= |s|
    ensures MagicAt(s[k..], j) == MagicAt(s, k + j)
  {
    if k + j + 4 <= |s| { assert s[k..][j..j + 4] == s[k + j..k + j + 4]; }
  }

  lemma MagicInPrefix(a: seq<byte>, b: seq<byte>, j: nat)
    requires j + 4 <= |a|
    ensures MagicAt(a + b, j) == MagicAt(a, j)
  {
    assert (a + b)[j..j + 4] == a[j..j + 4];
  }

  // ---------- the loop ----------

  datatype Outcome = Outcome(messages: seq<Message>, rest: seq<byte>, purged: bool)

  function SearchLimit(readable: nat): (limit: nat)
    requires readable >= HEADER_SIZE
  {
    if readable - HEADER_SIZE + 1 < MAX_PACKET_SIZE then readable - HEADER_SIZE + 1 else MAX_PACKET_SIZE
  }

  /** All turns of the loop on a buffer holding s: drop one byte when no magic is found, drop
      everything when moreover the buffer is over a packet long, skip to the magic otherwise. */
  function Drain(s: seq<byte>): (o: Outcome)
    decreases |s|
  {
    if |s| < HEADER_SIZE then Outcome([], s, false)
    else
      var limit := SearchLimit(|s|);
      var k := FirstMagic(s, 0, limit);
      if k > limit then
        if |s| > MAX_PACKET_SIZE then Outcome([], [], true) else Drain(s[1..])
      else
        var t := s[k..];
        var m := Parse(t);
        if m.None? then Outcome([], t, false)
        else
          var o := Drain(t[m.value.header.length..]);
          o.(messages := [m.value] + o.messages)
  }

  // ---------- the meaning of a stream ----------

  /** Offset of the first magic with a whole header behind it; all but the last 17 bytes if none. */
  function Skip(s: seq<byte>): (k: nat)
    ensures k <= |s|
    ensures forall j :: 0 <= j < k ==> !MagicAt(s, j)
    ensures |s| - k >= HEADER_SIZE ==> MagicAt(s, k)
    ensures |s| >= HEADER_SIZE - 1 ==> |s| - k >= HEADER_SIZE - 1
  {
    if |s| < HEADER_SIZE then 0 else FirstMagic(s, 0, |s| - HEADER_SIZE)
  }

  /** Messages of a stream and what is left over. It knows of no reads, no limit on the buffer and
      no single-byte steps. */
  function Decode(s: seq<byte>): (r: (seq<Message>, seq<byte>))
    decreases |s|
  {
    var t := s[Skip(s)..];
    var m := Parse(t);
    if m.None? then ([], t)
    else
      var r := Decode(t[m.value.header.length..]);
      ([m.value] + r.0, r.1)
  }

  /** Nothing more can be taken out: fewer bytes than a header, or a magic whose frame is incomplete
      or has an unacceptable length. */
  predicate Settled(s: seq<byte>)
  {
    |s| < HEADER_SIZE || (MagicAt(s, 0) && Parse(s).None?)
  }

  lemma DecodeShort(s: seq<byte>, k: nat)
    requires Skip(s) == k && |s| - k < HEADER_SIZE
    ensures Decode(s) == ([], s[k..])
  {}

  lemma DecodeMessage(s: seq<byte>, k: nat, m: Message)
    requires Skip(s) == k && Parse(s[k..]) == Some(m)
    ensures var r := Decode(s[k..][m.header.length..]); Decode(s) == ([m] + r.0, r.1)
  {}

  lemma {:induction false} LeavesSettled(s: seq<byte>)
    ensures Settled(Decode(s).1)
    decreases |s|
  {
    var t := s[Skip(s)..];
    MagicInSuffix(s, Skip(s), 0);
    if Parse(t).Some? { LeavesSettled(t[Parse(t).value.header.length..]); }
  }

  lemma SettledSkip(s: seq<byte>)
    requires Settled(s)
    ensures Skip(s) == 0 && Decode(s) == ([], s)
  {
    if |s| >= HEADER_SIZE { FirstMagicIs(s, |s| - HEADER_SIZE, 0); }
    assert s[0..] == s;
  }

  // ---------- the loop computes the meaning ----------

  /** Either no more than a packet is buffered, or a frame is at the front and no more than a packet
      follows it. */
  predicate Manageable(s: seq<byte>)
  {
    |s| <= MAX_PACKET_SIZE
    || (MagicAt(s, 0) && (Parse(s).Some? ==> |s| - Parse(s).value.header.length <= MAX_PACKET_SIZE))
  }

  lemma NoMagicOneLess(s: seq<byte>)
    requires |s| >= HEADER_SIZE && FirstMagic(s, 0, |s| - HEADER_SIZE + 1) > |s| - HEADER_SIZE + 1
    ensures Decode(s) == Decode(s[1..]) == ([], s[|s| - 17..])
  {
    FirstMagicIs(s, |s| - HEADER_SIZE, |s| - 17);
    DecodeShort(s, |s| - 17);
    var u := s[1..];
    forall j | 0 <= j < |u| - 17 ensures !MagicAt(u, j) { MagicInSuffix(s, 1, j); }
    if |u| >= HEADER_SIZE { FirstMagicIs(u, |u| - HEADER_SIZE, |u| - 17); }
    DecodeShort(u, |u| - 17);
    assert u[|u| - 17..] == s[|s| - 17..];
  }

  lemma DrainWaits(s: seq<byte>, k: nat)
    requires |s| >= HEADER_SIZE && FirstMagic(s, 0, SearchLimit(|s|)) == k <= SearchLimit(|s|)
    requires Parse(s[k..]).None?
    ensures Drain(s) == Outcome([], s[k..], false)
  {}

  lemma DrainDelivers(s: seq<byte>, k: nat, m: Message)
    requires |s| >= HEADER_SIZE && FirstMagic(s, 0, SearchLimit(|s|)) == k <= SearchLimit(|s|)
    requires Parse(s[k..]) == Some(m)
    ensures var o := Drain(s[k..][m.header.length..]); Drain(s) == Outcome([m] + o.messages, o.rest, o.purged)
  {}

  lemma DrainEnds(s: seq<byte>)
    ensures |s| < HEADER_SIZE ==> Drain(s) == Outcome([], s, false)
    ensures |s| > MAX_PACKET_SIZE && FirstMagic(s, 0, SearchLimit(|s|)) > SearchLimit(|s|) ==>
      Drain(s) == Outcome([], [], true)
  {}

  lemma DrainDrops(s: seq<byte>)
    requires HEADER_SIZE <= |s| <= MAX_PACKET_SIZE && FirstMagic(s, 0, SearchLimit(|s|)) > SearchLimit(|s|)
    ensures Drain(s) == Drain(s[1..])
  {}

  /** With `sofar` delivered and s buffered, the loop is on its way to `whole`. */
  ghost predicate OnTheWay(whole: Outcome, sofar: seq<Message>, s: seq<byte>)
  {
    whole.messages == sofar + Drain(s).messages && whole.rest == Drain(s).rest
  }

  lemma Starting(s: seq<byte>)
    ensures OnTheWay(Drain(s), [], s)
  {}

  lemma Dropped(whole: Outcome, sofar: seq<Message>, s: seq<byte>)
    requires OnTheWay(whole, sofar, s)
    requires HEADER_SIZE <= |s| <= MAX_PACKET_SIZE && FirstMagic(s, 0, SearchLimit(|s|)) > SearchLimit(|s|)
    ensures OnTheWay(whole, sofar, s[1..])
  {
    DrainDrops(s);
  }

  lemma Delivered(whole: Outcome, sofar: seq<Message>, s: seq<byte>, k: nat, m: Message)
    requires OnTheWay(whole, sofar, s)
    requires |s| >= HEADER_SIZE && FirstMagic(s, 0, SearchLimit(|s|)) == k <= SearchLimit(|s|)
    requires Parse(s[k..]) == Some(m)
    ensures OnTheWay(whole, sofar + [m], s[k..][m.header.length..])
  {
    hide Parse, Drain;
    DrainDelivers(s, k, m);
  }

  lemma Finished(whole: Outcome, sofar: seq<Message>, s: seq<byte>)
    requires OnTheWay(whole, sofar, s) && Drain(s).messages == []
    ensures whole.messages == sofar && whole.rest == Drain(s).rest
  {}

  /** On any buffer at all, also one that never arises: unless it purges, the loop computes the meaning. If it
      does, the messages handed over before are the first ones of the meaning, and nothing is left. */
  lemma {:induction false} DrainMeans(s: seq<byte>)
    ensures var (o, d) := (Drain(s), Decode(s));
      if o.purged then o.rest == [] && o.messages <= d.0 else o == Outcome(d.0, d.1, false)
    decreases |s|
  {
    hide Parse;
    if |s| < HEADER_SIZE {
      DecodeShort(s, 0);
      assert s[0..] == s;
    } else {
      var limit := SearchLimit(|s|);
      var k := FirstMagic(s, 0, limit);
      if k > limit {
        DrainEnds(s);
        if |s| <= MAX_PACKET_SIZE {
          NoMagicOneLess(s);
          DrainDrops(s);
          DrainMeans(s[1..]);
        }
      } else {
        FirstMagicIs(s, |s| - HEADER_SIZE, k);
        var m := Parse(s[k..]);
        if m.None? {
          DrainWaits(s, k);
        } else {
          DrainDelivers(s, k, m.value);
          DecodeMessage(s, k, m.value);
          DrainMeans(s[k..][m.value.header.length..]);
        }
      }
    }
  }

  /** More than a packet is left and no magic begins in its window. */
  ghost predicate PurgesAfter(s: seq<byte>, used: seq<byte>, left: seq<byte>)
  {
    s == used + left && |left| > MAX_PACKET_SIZE
    && forall j :: 0 <= j <= MAX_PACKET_SIZE && j <= |left| - HEADER_SIZE + 1 ==> !MagicAt(left, j)
  }

  /** The loop purges only what it can find no magic in. A magic near the end can be among it: the window
      does not reach to the last 16 bytes of a buffer that is just over a packet long. */
  lemma {:induction false} PurgeFinds(s: seq<byte>) returns (used: seq<byte>, left: seq<byte>)
    requires Drain(s).purged
    ensures PurgesAfter(s, used, left)
    decreases |s|
  {
    hide Parse, PurgesAfter;
    var limit := SearchLimit(|s|);
    var k := FirstMagic(s, 0, limit);
    if k > limit && |s| > MAX_PACKET_SIZE {
      used, left := [], s;
      PurgesHere(s);
    } else {
      var n := if k > limit then 1 else k + Parse(s[k..]).value.header.length;
      PurgesBehind(s, n);
      used, left := PurgeFinds(s[n..]);
      PurgesLater(s, n, used, left);
      used := s[..n] + used;
    }
  }

  lemma PurgesHere(s: seq<byte>)
    requires |s| > MAX_PACKET_SIZE && FirstMagic(s, 0, SearchLimit(|s|)) > SearchLimit(|s|)
    ensures PurgesAfter(s, [], s)
  {
    assert [] + s == s;
  }

  lemma PurgesLater(s: seq<byte>, n: nat, used: seq<byte>, left: seq<byte>)
    requires n <= |s| && PurgesAfter(s[n..], used, left)
    ensures PurgesAfter(s, s[..n] + used, left)
  {
    assert s == s[..n] + s[n..];
  }

  lemma PurgesBehind(s: seq<byte>, n: nat)
    requires |s| >= HEADER_SIZE && Drain(s).purged
    requires var k := FirstMagic(s, 0, SearchLimit(|s|));
      if k > SearchLimit(|s|) then |s| <= MAX_PACKET_SIZE && n == 1
      else Parse(s[k..]).Some? ==> n == k + Parse(s[k..]).value.header.length
    ensures 0 < n <= |s| && Drain(s[n..]).purged
  {
    hide Parse, Drain;
    var k := FirstMagic(s, 0, SearchLimit(|s|));
    if k > SearchLimit(|s|) {
      DrainDrops(s);
    } else {
      if Parse(s[k..]).None? { DrainWaits(s, k); }
      var m := Parse(s[k..]).value;
      DrainDelivers(s, k, m);
      assert s[k..][m.header.length..] == s[n..];
    }
  }

  /** The byte-dropping, window-limited loop computes the meaning, never purging. */
  lemma {:induction false} DrainDecodes(s: seq<byte>)
    requires Manageable(s)
    ensures Drain(s) == Outcome(Decode(s).0, Decode(s).1, false)
    decreases |s|
  {
    hide Parse;
    if |s| < HEADER_SIZE {
      DecodeShort(s, 0);
      assert s[0..] == s;
    } else {
      var limit := SearchLimit(|s|);
      var k := FirstMagic(s, 0, limit);
      if |s| > MAX_PACKET_SIZE { FirstMagicIs(s, limit, 0); assert s[0..] == s; }
      if k > limit {
        NoMagicOneLess(s);
        DrainDrops(s);
        DrainDecodes(s[1..]);
      } else {
        FirstMagicIs(s, |s| - HEADER_SIZE, k);
        var m := Parse(s[k..]);
        if m.None? {
          DrainWaits(s, k);
        } else {
          DrainDelivers(s, k, m.value);
          DecodeMessage(s, k, m.value);
          DrainDecodes(s[k..][m.value.header.length..]);
        }
      }
    }
  }

  // ---------- one stream, many reads ----------

  lemma SkipExtends(a: seq<byte>, b: seq<byte>)
    requires |a| - Skip(a) >= HEADER_SIZE
    ensures Skip(a + b) == Skip(a) && (a + b)[Skip(a)..] == a[Skip(a)..] + b
  {
    var k := Skip(a);
    forall j | 0 <= j <= k ensures MagicAt(a + b, j) == MagicAt(a, j) { MagicInPrefix(a, b, j); }
    FirstMagicIs(a + b, |a + b| - HEADER_SIZE, k);
  }

  lemma ParseExtends(a: seq<byte>, b: seq<byte>)
    requires Parse(a).Some?
    ensures Parse(a + b) == Parse(a)
  {
    HeaderAtSlice(a + b, |a|);
    assert (a + b)[..|a|] == a;
    var len := HeaderAt(a).length;
    assert (a + b)[HEADER_SIZE..len] == a[HEADER_SIZE..len];
  }

  /** Bytes that were skipped before the header was complete are skipped also with b behind them. */
  lemma SkipAgain(a: seq<byte>, b: seq<byte>, k: nat)
    requires k == Skip(a) && 0 < k && |a| - k < HEADER_SIZE
    ensures (a + b)[k..] == a[k..] + b
    ensures Skip(a + b) == k + Skip(a[k..] + b)
  {
    var s := a + b;
    var u := a[k..] + b;
    assert u == s[k..];
    var i := Skip(u);
    forall j | 0 <= j < k + i ensures !MagicAt(s, j) {
      if j >= k { MagicInSuffix(s, k, j - k); } else { MagicInPrefix(a, b, j); }
    }
    if |u| < HEADER_SIZE {
      assert i == 0;
    } else if i <= |u| - HEADER_SIZE {
      MagicInSuffix(s, k, i);
    }
    FirstMagicIs(s, |s| - HEADER_SIZE, k + i);
  }

  lemma SameTail(s: seq<byte>, u: seq<byte>)
    requires s[Skip(s)..] == u[Skip(u)..]
    ensures Decode(s) == Decode(u)
  {}

  /** Whether a short stream is decoded now or together with what follows makes no difference. */
  lemma DecodeInPartsShort(a: seq<byte>, b: seq<byte>)
    requires |a| - Skip(a) < HEADER_SIZE
    ensures InParts(a, b)
  {
    var k := Skip(a);
    var u := a[k..] + b;
    DecodeShort(a, k);
    if k > 0 {
      SkipAgain(a, b, k);
      assert (a + b)[k + Skip(u)..] == u[Skip(u)..];
    } else {
      assert a[0..] == a;
    }
    SameTail(a + b, u);
  }

  lemma DecodeInPartsWaiting(a: seq<byte>, b: seq<byte>)
    requires |a| - Skip(a) >= HEADER_SIZE && Parse(a[Skip(a)..]).None?
    ensures InParts(a, b)
  {
    var t := a[Skip(a)..];
    SkipExtends(a, b);
    MagicInSuffix(a, Skip(a), 0);
    MagicInPrefix(t, b, 0);
    FirstMagicIs(t + b, |t + b| - HEADER_SIZE, 0);
    SameTail(a + b, t + b);
  }

  lemma DecodeInPartsMessage(a: seq<byte>, b: seq<byte>, m: Message)
    requires |a| - Skip(a) >= HEADER_SIZE && Parse(a[Skip(a)..]) == Some(m)
    requires InParts(a[Skip(a)..][m.header.length..], b)
    ensures InParts(a, b)
  {
    hide Parse;
    var t := a[Skip(a)..];
    SkipExtends(a, b);
    ParseExtends(t, b);
    var u := t[m.header.length..];
    assert (t + b)[m.header.length..] == u + b;
    DecodeMessage(a, Skip(a), m);
    DecodeMessage(a + b, Skip(a), m);
    Prefixed(m, Decode(a), Decode(u), Decode(Decode(u).1 + b), Decode(u + b), Decode(a + b));
  }

  lemma Prefixed<T>(m: Message, a: (seq<Message>, T), u: (seq<Message>, T), second: (seq<Message>, T),
                    ub: (seq<Message>, T), ab: (seq<Message>, T))
    requires a == ([m] + u.0, u.1) && ab == ([m] + ub.0, ub.1)
    requires ub.0 == u.0 + second.0 && ub.1 == second.1
    ensures ab.0 == a.0 + second.0 && ab.1 == second.1
  {}

  predicate InParts(a: seq<byte>, b: seq<byte>)
  {
    var (first, whole) := (Decode(a), Decode(a + b));
    var second := Decode(first.1 + b);
    whole.0 == first.0 + second.0 && whole.1 == second.1
  }

  /** Decoding a, then what a left over followed by b, is decoding a followed by b. */
  lemma {:induction false} DecodeInParts(a: seq<byte>, b: seq<byte>)
    ensures InParts(a, b)
    decreases |a|
  {
    var t := a[Skip(a)..];
    if |t| < HEADER_SIZE {
      DecodeInPartsShort(a, b);
    } else if Parse(t).None? {
      DecodeInPartsWaiting(a, b);
    } else {
      DecodeInParts(t[Parse(t).value.header.length..], b);
      DecodeInPartsMessage(a, b, Parse(t).value);
    }
  }

  function Flatten(chunks: seq<seq<byte>>): seq<byte>
  {
    if chunks == [] then [] else chunks[0] + Flatten(chunks[1..])
  }

  /** The read callback run after each chunk, starting with `rest` in the buffer. */
  function FeedAll(rest: seq<byte>, chunks: seq<seq<byte>>): Outcome
    decreases |chunks|
  {
    if chunks == [] then Outcome([], rest, false)
    else
      var o := Drain(rest + chunks[0]);
      var p := FeedAll(o.rest, chunks[1..]);
      Outcome(o.messages + p.messages, p.rest, o.purged || p.purged)
  }

  lemma FeedStep(rest: seq<byte>, chunks: seq<seq<byte>>, i: nat)
    requires i < |chunks|
    ensures var o := Drain(rest + chunks[i]);
      FeedAll(rest, chunks[i..]).messages == o.messages + FeedAll(o.rest, chunks[i + 1..]).messages
      && FeedAll(rest, chunks[i..]).rest == FeedAll(o.rest, chunks[i + 1..]).rest
  {
    hide Drain;
    assert chunks[i..][1..] == chunks[i + 1..];
  }

  lemma FeedEnds(rest: seq<byte>, chunks: seq<seq<byte>>)
    ensures FeedAll(rest, chunks[|chunks|..]) == Outcome([], rest, false)
  {}

  lemma ReadIsManageable(rest: seq<byte>, chunk: seq<byte>)
    requires Settled(rest) && |chunk| <= RECV_SIZE
    ensures Manageable(rest + chunk)
  {
    var s := rest + chunk;
    if |rest| >= HEADER_SIZE {
      MagicInPrefix(rest, chunk, 0);
      if Parse(s).Some? {
        HeaderAtSlice(s, |rest|);
        assert s[..|rest|] == rest;
        assert HeaderAt(s).length > |rest|;
      }
    }
  }

  lemma {:induction false} FeedFrom(rest: seq<byte>, chunks: seq<seq<byte>>)
    requires Settled(rest) && forall i :: 0 <= i < |chunks| ==> |chunks[i]| <= RECV_SIZE
    ensures var d := Decode(rest + Flatten(chunks)); FeedAll(rest, chunks) == Outcome(d.0, d.1, false)
    decreases |chunks|
  {
    hide Parse, Drain, Decode;
    if chunks == [] {
      SettledSkip(rest);
      assert rest + Flatten(chunks) == rest;
    } else {
      var s := rest + chunks[0];
      ReadIsManageable(rest, chunks[0]);
      DrainDecodes(s);
      LeavesSettled(s);
      FeedFrom(Decode(s).1, chunks[1..]);
      DecodeInParts(s, Flatten(chunks[1..]));
      assert rest + Flatten(chunks) == s + Flatten(chunks[1..]);
    }
  }

  /** Chunking independence for every byte stream, valid or not: the messages delivered and the bytes
      left depend only on the stream, the discard-everything branch is never taken, and what is left
      is under a header long or begins with the magic. */
  lemma ChunkingDoesNotMatter(chunks: seq<seq<byte>>)
    requires forall i :: 0 <= i < |chunks| ==> |chunks[i]| <= RECV_SIZE
    ensures FeedAll([], chunks) == Outcome(Decode(Flatten(chunks)).0, Decode(Flatten(chunks)).1, false)
    ensures Settled(FeedAll([], chunks).rest)
  {
    hide Parse;
    FeedFrom([], chunks);
    assert [] + Flatten(chunks) == Flatten(chunks);
    LeavesSettled(Flatten(chunks));
  }

  // ---------- streams of frames ----------

  function Frames(ms: seq<Message>): seq<byte>
  {
    if ms == [] then [] else Wire(ms[0]) + Frames(ms[1..])
  }

  lemma FrameFirst(m: Message, after: seq<byte>)
    requires IsValid(m)
    ensures var s := Wire(m) + after;
      MagicAt(s, 0) && Skip(s) == 0 && Parse(s) == Some(m) && |Wire(m)| == m.header.length && s[|Wire(m)|..] == after
  {
    var s := Wire(m) + after;
    ValidIffSurvives(m, after);
    assert HeaderAt(s).magic == ValueHighFirst(s[0..4]);
    FirstMagicIs(s, |s| - HEADER_SIZE, 0);
  }

  /** Resynchronisation: garbage g in which no magic begins (not even one completed by the bytes
      after it) is dropped, exactly the frames are delivered in order, and what is left of the next
      frame stays buffered. Without garbage this also holds for no frames at all. */
  lemma {:induction false} Resynchronises(g: seq<byte>, ms: seq<Message>, p: seq<byte>)
    requires forall i :: 0 <= i < |ms| ==> IsValid(ms[i])
    requires Settled(p) && (g == [] || ms != [])
    requires forall j :: 0 <= j < |g| ==> !MagicAt(g + (Frames(ms) + p), j)
    ensures Decode(g + (Frames(ms) + p)) == (ms, p)
    decreases |ms|
  {
    hide Parse, Decode;
    var s := g + (Frames(ms) + p);
    if ms == [] {
      SettledSkip(p);
      assert s == p;
    } else {
      var tail := Frames(ms[1..]) + p;
      Rearrange(g, ms, p);
      FrameFirst(ms[0], tail);
      MagicInSuffix(s, |g|, 0);
      FirstMagicIs(s, |s| - HEADER_SIZE, |g|);
      DecodeMessage(s, |g|, ms[0]);
      assert [] + tail == tail;
      Resynchronises([], ms[1..], p);
      assert ms == [ms[0]] + ms[1..];
    }
  }

  lemma Rearrange(g: seq<byte>, ms: seq<Message>, p: seq<byte>)
    requires ms != []
    ensures (g + (Frames(ms) + p))[|g|..] == Wire(ms[0]) + (Frames(ms[1..]) + p)
  {
    Codec.Associates(Wire(ms[0]), Frames(ms[1..]), p);
  }

  /** A truncated frame is never mistaken for anything else. */
  lemma TruncatedSettles(m: Message, n: nat)
    requires IsValid(m) && n < |Wire(m)|
    ensures Settled(Wire(m)[..n])
  {
    PrefixDoesNotParse(m, n);
    if n >= HEADER_SIZE {
      FrameFirst(m, []);
      assert Wire(m) + [] == Wire(m);
      assert Wire(m)[..n] + Wire(m)[n..] == Wire(m);
      MagicInPrefix(Wire(m)[..n], Wire(m)[n..], 0);
    }
  }

  /** Garbage, valid frames and a truncated frame, cut into reads in any way: the frames and nothing
      else arrive, in order. */
  lemma FramesArrive(g: seq<byte>, ms: seq<Message>, next: Message, n: nat, chunks: seq<seq<byte>>)
    requires forall i :: 0 <= i < |ms| ==> IsValid(ms[i])
    requires IsValid(next) && n < |Wire(next)| && (g == [] || ms != [])
    requires forall i :: 0 <= i < |chunks| ==> |chunks[i]| <= RECV_SIZE
    requires Flatten(chunks) == g + (Frames(ms) + Wire(next)[..n])
    requires forall j :: 0 <= j < |g| ==> !MagicAt(Flatten(chunks), j)
    ensures FeedAll([], chunks) == Outcome(ms, Wire(next)[..n], false)
  {
    TruncatedSettles(next, n);
    Resynchronises(g, ms, Wire(next)[..n]);
    ChunkingDoesNotMatter(chunks);
  }

  // ---------- a header that is not acceptable ----------

  /** Behind the magic of a header that is not acceptable nothing is taken out any more, whatever comes. */
  lemma UnacceptableBlocks(p: seq<byte>, b: seq<byte>)
    requires |p| >= HEADER_SIZE && MagicAt(p, 0) && !Acceptable(HeaderAt(p))
    ensures Settled(p + b) && Decode(p + b) == ([], p + b)
  {
    MagicInPrefix(p, b, 0);
    HeaderAtSlice(p + b, |p|);
    assert (p + b)[..|p|] == p;
    SettledSkip(p + b);
  }

  /** So one message over the packet limit, which its sender serializes without complaint, blocks the
      stream: the messages before it arrive, and neither it nor anything after it ever does. */
  lemma OversizedBlocks(ms: seq<Message>, m: Message, after: seq<byte>, chunks: seq<seq<byte>>)
    requires forall i :: 0 <= i < |ms| ==> IsValid(ms[i])
    requires m.header.magic == PROTOCOL_MAGIC && MAX_PACKET_SIZE < HEADER_SIZE + |m.body| < 0x1_0000_0000
    requires forall i :: 0 <= i < |chunks| ==> |chunks[i]| <= RECV_SIZE
    requires Flatten(chunks) == Frames(ms) + (Wire(m) + after)
    ensures FeedAll([], chunks) == Outcome(ms, Wire(m) + after, false)
  {
    hide FeedAll, Decode;
    OversizedHeader(m);
    UnacceptableBlocks(Wire(m), after);
    assert [] + Flatten(chunks) == Flatten(chunks);
    Resynchronises([], ms, Wire(m) + after);
    ChunkingDoesNotMatter(chunks);
  }

  lemma OversizedHeader(m: Message)
    requires m.header.magic == PROTOCOL_MAGIC && MAX_PACKET_SIZE < HEADER_SIZE + |m.body| < 0x1_0000_0000
    ensures MagicAt(Wire(m), 0) && !Acceptable(HeaderAt(Wire(m)))
  {
    var h := m.header.(length := LengthFor(m.body));
    HeaderAtBytes(h, m.body);
    assert HeaderAt(Wire(m)).magic == ValueHighFirst(Wire(m)[0..4]) by { hide HeaderBytes, Wire, ValueHighFirst; }
    hide HeaderBytes, ValueHighFirst, HeaderAt;
    assert HeaderAt(Wire(m)) == h;
  }

  // ---------- nothing is lost ----------

  /** The stream is the gaps, the frames of the messages between them and the rest, in order, and
      no magic begins at any byte of a gap. */
  ghost predicate Explains(s: seq<byte>, gaps: seq<seq<byte>>, ms: seq<Message>, rest: seq<byte>)
    decreases |ms|
  {
    && |gaps| == |ms| + 1
    && gaps[0] <= s
    && (forall j :: 0 <= j < |gaps[0]| ==> !MagicAt(s, j))
    && var t := s[|gaps[0]|..];
       if ms == [] then t == rest
       else IsValid(ms[0]) && Wire(ms[0]) <= t && Explains(t[|Wire(ms[0])|..], gaps[1..], ms[1..], rest)
  }

  /** Every byte of the stream is accounted for: the loop drops only bytes at which no magic begins. */
  lemma {:induction false} DropsOnlyGarbage(s: seq<byte>) returns (gaps: seq<seq<byte>>)
    ensures Explains(s, gaps, Decode(s).0, Decode(s).1)
    decreases |s|
  {
    var k := Skip(s);
    var t := s[k..];
    gaps := [s[..k]];
    if Parse(t).Some? {
      var m := Parse(t).value;
      ParseWires(t);
      var others := DropsOnlyGarbage(t[m.header.length..]);
      gaps := gaps + others;
      assert gaps[1..] == others;
      assert Decode(s).0[1..] == Decode(t[m.header.length..]).0;
      assert |Wire(m)| == m.header.length;
    }
  }
}
