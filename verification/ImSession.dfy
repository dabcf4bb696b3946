/** ZhkeyesIMServer/IMSession.cpp: the server's end of a connection. */
module ImSession {
  import opened Bytes
  import opened ImMessage
  import opened Framing
  import opened MagicSearch
  import B = Buffer

  class IMSession {
    const little: bool
    /** The messages given to IMServer::handleMsg so far, in order. */
    var handled: seq<Message>

    constructor (little: bool)
      ensures this.little == little && handled == []
    {
      this.little := little;
      handled := [];
    }

    method OnRead(buf: B.Buffer)
      requires buf.Valid()
      modifies this, buf
      ensures buf.Valid() && buf.data == old(buf.data)
      ensures handled == old(handled) + Drain(old(buf.Contents())).messages
      ensures buf.Contents() == Drain(old(buf.Contents())).rest
    {
      hide Parse, Drain, FirstMagic, OnTheWay, MagicAt;
      ghost var whole := Drain(buf.Contents());
      ghost var sofar: seq<Message> := [];
      Starting(buf.Contents());
      while true
        invariant buf.Valid() && buf.data == old(buf.data)
        invariant handled == old(handled) + sofar
        invariant OnTheWay(whole, sofar, buf.Contents())
        decreases buf.ReadableBytes()
      {
        ghost var s := buf.Contents();
        DrainEnds(s);
        if buf.ReadableBytes() < HEADER_SIZE {
          Finished(whole, sofar, s);
          break;
        }
        var data := buf.Contents();
        var readable := buf.ReadableBytes();
        var searchLimit := SearchLimit(readable);
        var foundMagic, magicOffset := Search(data, searchLimit, little);
        if !foundMagic {
          if readable > MAX_PACKET_SIZE {
            Finished(whole, sofar, s);
            buf.RetrieveAll();
            break;
          }
          buf.Retrieve(1);
          Dropped(whole, sofar, s);
          continue;
        }
        data := DropGarbage(buf, magicOffset);
        var msg := IMMessage.DeserializeFromBuffer(data, little);
        if msg == null {
          DrainWaits(s, magicOffset);
          Finished(whole, sofar, s);
          break;
        }
        Delivered(whole, sofar, s, magicOffset, msg.Value());
        var msgLen := msg.header.length;
        buf.Retrieve(msgLen);
        handled := handled + [msg.Value()];
        sofar := sofar + [msg.Value()];
      }
    }
  }

  /** TCPConnection::onRead with the read callback enabled, once per received chunk: append, then call
      back. Whatever the stream holds and however it arrives, the server handles exactly its messages
      and keeps exactly what is left; for frames preceded by garbage, see Framing.FramesArrive. */
  method Serve(chunks: seq<seq<byte>>, little: bool) returns (handled: seq<Message>, left: seq<byte>)
    requires forall i :: 0 <= i < |chunks| ==> |chunks[i]| <= RECV_SIZE
    ensures (handled, left) == Decode(Flatten(chunks))
    ensures Settled(left)
  {
    hide Parse, Drain, Decode, FeedAll, Flatten;
    var m_recvBuf := new B.Buffer();
    var session := new IMSession(little);
    ghost var whole := FeedAll([], chunks);
    assert chunks[0..] == chunks;
    for i := 0 to |chunks|
      invariant m_recvBuf.Valid() && fresh(m_recvBuf) && fresh(m_recvBuf.data) && fresh(session)
      invariant whole.messages == session.handled + FeedAll(m_recvBuf.Contents(), chunks[i..]).messages
      invariant whole.rest == FeedAll(m_recvBuf.Contents(), chunks[i..]).rest
    {
      ghost var (before, rest) := (session.handled, m_recvBuf.Contents());
      m_recvBuf.Append(chunks[i]);
      session.OnRead(m_recvBuf);
      FeedStep(rest, chunks, i);
    }
    FeedEnds(m_recvBuf.Contents(), chunks);
    ChunkingDoesNotMatter(chunks);
    handled, left := session.handled, m_recvBuf.Contents();
    assert handled + [] == handled;
  }
}
