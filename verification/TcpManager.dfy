/** ZhKeyesIMClient/NetWork/TcpManager.cpp: the client's end of a connection. */
module TcpManager {
  import opened Bytes
  import opened ImMessage
  import opened Framing
  import opened MagicSearch
  import opened PendingRequests
  import B = Buffer

  class TcpManager {
    const little: bool
    var counter: nat
    var pendingRequests: map<uint32, Handler>
    /** Where the messages framed so far went. */
    var log: seq<Entry>
    ghost var stored: set<nat>

    constructor (little: bool)
      ensures this.little == little && State() == Start
    {
      this.little := little;
      counter, pendingRequests, log, stored := 1, map[], [], {};
    }

    ghost function State(): Client
      reads this
    {
      Client(counter, stored, pendingRequests, log)
    }

    /** The 64-bit counter is not modelled beyond its range. */
    method GenerateSeqId() returns (request: nat)
      modifies this
      ensures State() == Apply(old(State()), Generate) && request == old(counter)
    {
      request := counter;
      counter := counter + 1;
    }

    method AddPendingRequest(seqId: uint32, handler: Handler)
      requires seqId == SeqIdOf(handler.request)
      modifies this
      ensures State() == Apply(old(State()), Store(handler.request, handler.callable))
    {
      pendingRequests := pendingRequests[seqId := handler];
      stored := stored + {handler.request};
    }

    /** True when a handler took the message. */
    method HandleResponseBySeqId(msg: Message) returns (handled: bool)
      modifies this
      ensures handled ==>
        State() == Respond(old(State()), msg)
        && msg.header.seqId in old(pendingRequests) && |log| == |old(log)| + 1 && log[|old(log)|] == Ran(old(pendingRequests)[msg.header.seqId], msg)
      ensures !handled ==>
        State().(log := old(log) + [Dispatched(msg)]) == Respond(old(State()), msg) && log == old(log)
    {
      var seqId := msg.header.seqId;
      if seqId == 0 {
        return false;
      }
      if seqId !in pendingRequests {
        return false;
      }
      var handler := pendingRequests[seqId];
      pendingRequests := pendingRequests - {seqId};
      if handler.callable {
        log := log + [Ran(handler, msg)];
        return true;
      }
      return false;
    }

    method OnTcpResponse(buf: B.Buffer)
      requires buf.Valid()
      modifies this, buf
      ensures buf.Valid() && buf.data == old(buf.data)
      ensures State() == RespondAll(old(State()), Drain(old(buf.Contents())).messages)
      ensures buf.Contents() == Drain(old(buf.Contents())).rest
    {
      hide Parse, Drain, FirstMagic, OnTheWay, MagicAt, Respond, RespondAll;
      ghost var whole := Drain(buf.Contents());
      ghost var sofar: seq<Message> := [];
      Starting(buf.Contents());
      NoneYet(State());
      while true
        invariant buf.Valid() && buf.data == old(buf.data)
        invariant State() == RespondAll(old(State()), sofar)
        invariant OnTheWay(whole, sofar, buf.Contents())
        decreases buf.ReadableBytes()
      {
        ghost var s := buf.Contents();
        DrainEnds(s);
        if buf.ReadableBytes() < HEADER_SIZE {
          Finished(whole, sofar, s);
          break;
        }
        var data := buf.Contents();
        var readable := buf.ReadableBytes();
        var searchLimit := SearchLimit(readable);
        var foundMagic, magicOffset := Search(data, searchLimit, little);
        if !foundMagic {
          if readable > MAX_PACKET_SIZE {
            Finished(whole, sofar, s);
            buf.RetrieveAll();
            break;
          }
          buf.Retrieve(1);
          Dropped(whole, sofar, s);
          continue;
        }
        data := DropGarbage(buf, magicOffset);
        var msg := IMMessage.DeserializeFromBuffer(data, little);
        if msg == null {
          DrainWaits(s, magicOffset);
          Finished(whole, sofar, s);
          break;
        }
        Delivered(whole, sofar, s, magicOffset, msg.Value());
        var msgLen := msg.header.length;
        buf.Retrieve(msgLen);
        Route(msg.Value());
        OneMore(old(State()), sofar, msg.Value());
        sofar := sofar + [msg.Value()];
      }
    }

    /** The message to whoever waits for its seqId, else to the dispatcher. */
    method Route(msg: Message)
      modifies this
      ensures State() == Respond(old(State()), msg)
    {
      var handled := HandleResponseBySeqId(msg);
      if !handled {
        log := log + [Dispatched(msg)];
      }
    }
  }

  lemma NoneYet(c: Client)
    ensures RespondAll(c, []) == c
  {}

  lemma OneMore(c: Client, ms: seq<Message>, m: Message)
    ensures RespondAll(c, ms + [m]) == Respond(RespondAll(c, ms), m)
  {
    RespondAllAppend(c, ms, [m]);
  }

  /** The same for the client as ImSession.Serve for the server: whatever arrives, in whatever chunks,
      exactly the messages of the stream are routed, one after the other. */
  method Receive(manager: TcpManager, chunks: seq<seq<byte>>) returns (left: seq<byte>)
    requires forall i :: 0 <= i < |chunks| ==> |chunks[i]| <= RECV_SIZE
    modifies manager
    ensures manager.State() == RespondAll(old(manager.State()), Decode(Flatten(chunks)).0)
    ensures left == Decode(Flatten(chunks)).1
  {
    hide Parse, Drain, Decode, FeedAll, Flatten, RespondAll, Respond;
    var m_recvBuf := new B.Buffer();
    ghost var whole := FeedAll([], chunks);
    ghost var sofar: seq<Message> := [];
    assert chunks[0..] == chunks;
    NoneYet(manager.State());
    for i := 0 to |chunks|
      invariant m_recvBuf.Valid() && fresh(m_recvBuf) && fresh(m_recvBuf.data)
      invariant manager.State() == RespondAll(old(manager.State()), sofar)
      invariant whole.messages == sofar + FeedAll(m_recvBuf.Contents(), chunks[i..]).messages
      invariant whole.rest == FeedAll(m_recvBuf.Contents(), chunks[i..]).rest
    {
      ghost var rest := m_recvBuf.Contents();
      ghost var now := Drain(rest + chunks[i]).messages;
      m_recvBuf.Append(chunks[i]);
      manager.OnTcpResponse(m_recvBuf);
      FeedStep(rest, chunks, i);
      RespondAllAppend(old(manager.State()), sofar, now);
      sofar := sofar + now;
    }
    FeedEnds(m_recvBuf.Contents(), chunks);
    ChunkingDoesNotMatter(chunks);
    assert sofar + [] == sofar;
    left := m_recvBuf.Contents();
  }
}
