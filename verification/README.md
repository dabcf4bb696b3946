# ZhkeyesIM: the network engine and its protocol

A Dafny model of the parts of the chat system that move bytes and keep books: the codec and the
18-byte message header, the receive buffer and the framing loop that cuts a byte stream into messages,
the output side of a connection and the event loop's task queue, the three multiplexers, the worker
pool, timers, the client's table of pending requests, the least-loaded choice of a chat server and the
session indices.

Objects that the program updates in place are classes here and keep their fields, loops and branches
(`Buffer`, `BinaryWriter`, `BinaryReader`, `ImMessage`, `ImSession`, `TcpManager`, `TcpConnection`,
`Poll`, `Select`, `Epoll`, `WorkThreadPool`, `Timers`, `ChatServerRepository`, `ImServer`). Each is tied
by its contracts to functions on values, and what the design promises is proved about those: `Codec` and
`ByteOrder` for bytes, `Framing` for streams, `Connection`, `WorkPool`, `InterestMap`, `TimerRules`,
`PendingRequests`, `ChatServers` and `SessionIndex` for state machines whose steps come in any order.
Network, clock, thread scheduler and Redis are parameters: a step carries the kernel's answer or the
time, and every statement is about all of them.

`serialize`, `deserialize` and `deserializeFromBuffer` are declared in IMProtocol/IMMessage.h:98-100,
which the table cites; their bodies are IMProtocol/IMMessage.cpp lines 15-39, 41-89 and 91-142, and the
constructor's lines 6-13 (that file is not in UTF-8).

`dafny verify dfyconfig.toml` checks the whole project.

## What comes out

* The framing loop drops single bytes, searches a bounded window that reaches one offset further than a
  header fits, and may throw the whole buffer away. `Framing.Decode` defines what a stream means without
  any of this: skip to the first magic with a whole header behind it, take the message, go on. The two
  agree on every byte stream in every division into reads (`Framing.ChunkingDoesNotMatter`), so the
  branch that throws the buffer away is never taken; only bytes at which no magic begins are dropped
  (`Framing.DropsOnlyGarbage`); garbage followed by frames yields exactly the frames
  (`Framing.FramesArrive`).
* Nothing ties the size of an outgoing body to the packet limit: a body over it is serialized and then
  never accepted by the other side (`ImMessage.WireParses`).
* Such a message then blocks its stream: what came before it arrives, and nothing after it ever does
  (`Framing.OversizedBlocks`).
* A request whose number is a multiple of 2^32 is never answered through its handler
  (`PendingRequests.AnswerableIff`). In runs of any length, storing a handler drives a pending one out
  exactly if a request is pending whose number is the same modulo 2^32
  (`PendingRequests.StoreReplacesIff`); `PendingRequests.WrapOverwrites` is a run in which it happens.
* `shutdownAfterWrite` can be forgotten: some schedule leaves the connection open and drained with no event
  that would close it, exactly if the request came when nothing was pending but `m_enableWrite` was up
  (`Connection.ShutdownForgottenIff`).
* A close leaves the descriptor in the multiplexer exactly if an interest was registered whose flag was down
  (`TcpConnection.TCPConnection.OnClose`). With a multiplexer that only raises flags, as Poll does, this
  never happens (`Connection.CleanStays`); with one that lowers them, as Select and Epoll do, it does, even
  on a graceful close (`Connection.ClosesLeaveInterest`).
* With Epoll this is fatal for whoever gets the descriptor next: the kernel has dropped it, the flags have
  not, and the new connection is watched exactly if nothing was left behind; otherwise the server crashes
  or never hears of it (`Epoll.ReuseAfterClose`).
* A connection breaks only for a reason: in every run without kernel failures, peer closes and shutdown
  requests it stays open and takes every payload completely, whatever the partial sends
  (`Connection.NeverBreaks`).
* In a running pool everything accepted gets done, without any stop (`WorkPool.AcceptedGetsDone`).
* Poll and Select always keep the same table; Epoll keeps it exactly when the dispatcher passed in is the
  registered one in the cases in which it matters (`Epoll.AgreesIff`).
* Which failed requests for a chat server restore the counts can be told from the store
  (`ChatServers.FailureRestoresIff`). A port that is no number leaves a connection counted that nobody has,
  each time its server is chosen (`ChatServers.ThrowingLeaks`, `ChatServers.CountsGrow`).
* The uid index names live sessions throughout a run exactly if every authentication comes in time
  (`SessionIndex.UsersLiveIff`). Authenticating once is not enough: a session whose connection closed
  while an earlier message of the same read was handled still authenticates
  (`SessionIndex.LateAuthentication`).
* Every live authenticated session is found under its uid throughout a run exactly if no authentication
  takes a uid over (`SessionIndex.ListedIff`); after a double login the older session's close leaves the
  user unlisted (`SessionIndex.DoubleLogin`).

The header diagram in IMProtocol/IMProtocol.h:8-11 gives the flags two bytes; the field notes below it
and the code give them one, 18 bytes in all, and so does the model. Machine words are integers in their
range; masks and shifts are written as division and remainder by powers of two, with wrap-around where
the code can reach it (the 32-bit length field and request number, the session counter, the sums in the
variable-length readers, the 16-bit port).

## Model

| member | source | states |
|---|---|---|
| ByteOrder.SwapReverses | util/ByteOrder.h:21-59 | each of the three swaps is the reversal of the value's bytes |
| ByteOrder.StoresNetworkOrder | util/ByteOrder.h:25-63 | copying out a converted value yields the most significant byte first on either kind of host |
| ByteOrder.LoadsNetworkOrder | util/ByteOrder.h:29-67 | converting copied-in bytes yields their network-order value on either kind of host |
| ByteOrder.ConvertTwice | util/ByteOrder.h:25-67 | host-to-network and network-to-host undo each other |
| ByteOrder.MemoryHolds | util/ByteOrder.h:11-14 | a variable's memory holds its value, the low byte first exactly on little-endian hosts |
| Bytes.HighFirstValue | IMProtocol/BinaryWriter.h:31-53 | the network-order bytes of a value in range have that value |
| Bytes.ValueHighFirstBytes | IMProtocol/BinaryReader.h:27-52 | bytes are the network-order form of the value read from them |
| Bytes.FirstWeighsMost | IMProtocol/BinaryReader.h:27-52 | the first byte of a network-order value weighs most, that of the other order least |
| Codec.VarEncodeIsVar | IMProtocol/BinaryWriter.h:57-80 | the encoder sets high bits on exactly the bytes before the last, and the base-128 sum is the value |
| Codec.VarEncodeLength | IMProtocol/BinaryWriter.h:57-80 | the encoding fits k bytes if and only if the value is below 128^k: it is the shortest |
| Codec.VarLengthExact | IMProtocol/BinaryReader.h:61-73 | bytes with high bits on exactly the first k-1 are taken as an encoding of k bytes |
| Codec.ReencodeNoLonger | IMProtocol/BinaryReader.h:56-99 | encoding what was decoded, also after wrap-around, never takes more bytes |
| Codec.ReencodeSameIff | IMProtocol/BinaryReader.h:56-99 | encoding what was decoded gives the same bytes if and only if the last byte is not padding |
| Codec.FixedForms | IMProtocol/BinaryWriter.h:26-53 | fixed fields take one, two, four and eight bytes with the field's network-order value |
| Codec.VarForms | IMProtocol/BinaryWriter.h:56-80 | variable fields take one to five and one to ten bytes, no fewer would do, and their base-128 sum is the field's value |
| Codec.StringForms | IMProtocol/BinaryWriter.h:83-111 | a string is its base-128 length in one to five bytes, then the text; in the fixed form the length is a four-byte integer |
| Codec.NumberReadIff | IMProtocol/BinaryReader.h:20-99 | on all inputs a number is read if and only if the bytes begin with a form of it, padded and wrapping ones included, and what follows is left |
| Codec.TextReadIff | IMProtocol/BinaryReader.h:102-131 | on all inputs a string or raw field is read if and only if the bytes begin with a length of its kind and the text, and what follows is left |
| Codec.FieldRoundTrip | IMProtocol/BinaryReader.h:20-131 | a field of any kind is read back with its value, leaving exactly what follows |
| Codec.ListRoundTrip | IMProtocol/BinaryReader.h:20-131 | a list of fields is read back by its schema, leaving exactly what follows |
| BinaryWriter.BinaryWriter.WriteUInt8 | IMProtocol/BinaryWriter.h:26-29 | appends the byte unless over the cap |
| BinaryWriter.BinaryWriter.WriteUInt16 | IMProtocol/BinaryWriter.h:31-37 | appends the network-order form on either host, or changes nothing when over the cap |
| BinaryWriter.BinaryWriter.WriteUInt32 | IMProtocol/BinaryWriter.h:39-45 | appends the network-order form on either host, or changes nothing when over the cap |
| BinaryWriter.BinaryWriter.WriteUInt64 | IMProtocol/BinaryWriter.h:47-53 | appends the network-order form on either host, or changes nothing when over the cap |
| BinaryWriter.BinaryWriter.WriteVar | IMProtocol/BinaryWriter.h:58-66 | the loop appends the whole encoding if it fits, otherwise as much as fits and fails |
| BinaryWriter.BinaryWriter.WriteUInt32Var | IMProtocol/BinaryWriter.h:57-67 | appends the base-128 form, fails exactly when it does not fit |
| BinaryWriter.BinaryWriter.WriteUInt64Var | IMProtocol/BinaryWriter.h:70-80 | appends the base-128 form, fails exactly when it does not fit |
| BinaryWriter.BinaryWriter.WriteString | IMProtocol/BinaryWriter.h:83-96 | appends length and text, fails exactly when they do not fit |
| BinaryWriter.BinaryWriter.WriteStringFixed | IMProtocol/BinaryWriter.h:99-111 | appends four-byte length and text, fails exactly when they do not fit |
| BinaryWriter.BinaryWriter.WriteBytes | IMProtocol/BinaryWriter.h:114-121 | appends the bytes, or changes nothing when over the cap |
| BinaryReader.BinaryReader.ReadUInt8 | IMProtocol/BinaryReader.h:20-25 | takes the next byte; on failure the cursor stays |
| BinaryReader.BinaryReader.ReadUInt16 | IMProtocol/BinaryReader.h:27-34 | takes the network-order value on either host; on failure the cursor stays |
| BinaryReader.BinaryReader.ReadUInt32 | IMProtocol/BinaryReader.h:36-43 | takes the network-order value on either host; on failure the cursor stays |
| BinaryReader.BinaryReader.ReadUInt64 | IMProtocol/BinaryReader.h:45-52 | takes the network-order value on either host; on failure the cursor stays |
| BinaryReader.BinaryReader.ReadVar | IMProtocol/BinaryReader.h:61-75 | the loop accepts exactly the encodings within the limit and computes their base-128 sum modulo the word size |
| BinaryReader.BinaryReader.ReadUInt32Var | IMProtocol/BinaryReader.h:56-76 | accepts exactly the encodings of one to five bytes; value modulo 2^32 |
| BinaryReader.BinaryReader.ReadUInt64Var | IMProtocol/BinaryReader.h:79-99 | accepts exactly the encodings of one to ten bytes; value modulo 2^64 |
| BinaryReader.BinaryReader.ReadString | IMProtocol/BinaryReader.h:102-111 | takes length and text, fails exactly when either is incomplete |
| BinaryReader.BinaryReader.ReadStringFixed | IMProtocol/BinaryReader.h:114-123 | takes four-byte length and text, fails exactly when either is incomplete |
| BinaryReader.BinaryReader.ReadBytes | IMProtocol/BinaryReader.h:126-131 | takes so many bytes; on failure the cursor stays |
| FieldTransfer.Transfer | IMProtocol/BinaryWriter.h:26-121 | every list of fields within the cap arrives unchanged with nothing left over, whatever the byte orders of the two hosts; a list over the cap is refused |
| ImMessage.WireParses | IMProtocol/IMMessage.h:98-100 | a serialized message is parsed again exactly when its magic is right and it is within the packet limit, whatever follows it |
| ImMessage.ValidIffSurvives | IMProtocol/IMMessage.h:76-81 | isValid holds if and only if the message comes back from the wire unchanged |
| ImMessage.ParseWires | IMProtocol/IMMessage.h:100 | a parsed message serializes to exactly the bytes it was parsed from |
| ImMessage.PrefixDoesNotParse | IMProtocol/IMProtocol.h:15 | a frame cut off anywhere yields no message |
| ImMessage.ExactlyWires | IMProtocol/IMMessage.h:99 | the strict parser accepts exactly the wire forms of valid messages |
| ImMessage.WireLayout | IMProtocol/IMProtocol.h:14-23 | the bytes at each offset of a serialized message |
| ImMessage.ParseLayout | IMProtocol/IMMessage.h:100 | on all inputs: a message is parsed if and only if "ZHKY" and a length between 18 and 1 MB are in front and that many bytes are there; its fields are those at the offsets |
| ImMessage.IMMessage.constructor | IMProtocol/IMMessage.h:14 | a new message is valid if and only if its body is within the limit |
| ImMessage.IMMessage.SetBody | IMProtocol/IMMessage.h:60-64 | sets body and length; valid afterwards if and only if the magic is right and the body within the limit |
| ImMessage.IMMessage.SetHeader | IMProtocol/IMMessage.h:70-74 | sets the header but keeps the length matching the body |
| ImMessage.IMMessage.Clear | IMProtocol/IMMessage.h:86-89 | leaves a valid empty message |
| ImMessage.IMMessage.Serialize | IMProtocol/IMMessage.h:98 | yields the wire form, fails exactly when it exceeds the writer's cap |
| ImMessage.IMMessage.DeserializeFromBuffer | IMProtocol/IMMessage.h:100 | null exactly when no complete acceptable message is in front; otherwise that message |
| ImMessage.IMMessage.Deserialize | IMProtocol/IMMessage.h:99 | accepts exactly the data that is one message and nothing else |
| Buffer.Buffer.constructor | net/Buffer.cpp:3-8 | empty, with the reserved area in front and the initial room behind |
| Buffer.Buffer.Retrieve | net/Buffer.cpp:64-71 | drops exactly that many bytes from the front |
| Buffer.Buffer.RetrieveAll | net/Buffer.cpp:79-82 | empties the queue and restores the reserved area |
| Buffer.Buffer.RetrieveAsString | net/Buffer.cpp:91-98 | splits the contents into what is returned and what stays |
| Buffer.Buffer.Append | net/Buffer.cpp:100-105 | puts the bytes behind the contents, growing or compacting as needed |
| Buffer.Buffer.EnsureWritableBytes | net/Buffer.cpp:112-118 | makes room without changing the contents |
| Buffer.Buffer.MakeSpace | net/Buffer.cpp:143-160 | keeps the contents; compacts only from beyond the reserved area, so the overlapping copy moves left, and grows otherwise |
| Buffer.Buffer.Prepend | net/Buffer.cpp:120-126 | puts the bytes in front of the contents |
| Buffer.Buffer.Shrink | net/Buffer.cpp:128-134 | same contents in a fresh vector |
| Buffer.Buffer.Swap | net/Buffer.cpp:136-141 | exchanges the contents of two buffers |
| MagicSearch.Search | ZhkeyesIMServer/IMSession.cpp:55-80 | finds the first magic in the window, on either kind of host |
| MagicSearch.DropGarbage | ZhkeyesIMServer/IMSession.cpp:102-110 | drops exactly what comes before the magic |
| Framing.DrainDecodes | ZhkeyesIMServer/IMSession.cpp:46-125 | the loop with its window and single-byte steps computes the meaning of the buffered bytes, without purging |
| Framing.DrainMeans | ZhkeyesIMServer/IMSession.cpp:46-125 | on any buffer: unless it purges, the loop computes the meaning; if it does, it hands over the first messages of the meaning and leaves nothing |
| Framing.PurgeFinds | ZhkeyesIMServer/IMSession.cpp:83-89 | a purge happens only when more than a packet is left and no magic begins in its window |
| Framing.DecodeInParts | ZhkeyesIMServer/IMSession.cpp:46-125 | decoding a, then its leftover followed by b, is decoding a followed by b |
| Framing.LeavesSettled | ZhkeyesIMServer/IMSession.cpp:49-50 | what is left is shorter than a header or begins with the magic of a frame that is not complete or not acceptable |
| Framing.FeedFrom | ZhkeyesIMServer/IMSession.cpp:46-125 | chunking independence from any leftover in the buffer |
| Framing.ChunkingDoesNotMatter | ZhkeyesIMServer/IMSession.cpp:83-89 | for every stream and every division into reads: messages and leftover depend only on the stream, and the discard-everything branch is not taken |
| Framing.Resynchronises | ZhkeyesIMServer/IMSession.cpp:102-110 | garbage in which no magic begins is dropped and the frames behind it are all recovered, in order |
| Framing.TruncatedSettles | ZhkeyesIMServer/IMSession.cpp:113-115 | a truncated frame stays buffered |
| Framing.FramesArrive | ZhkeyesIMServer/IMSession.cpp:46-125 | garbage, frames and a truncated frame, divided into reads in any way: exactly the frames arrive and the truncated frame is kept |
| Framing.DropsOnlyGarbage | ZhkeyesIMServer/IMSession.cpp:93-110 | the stream is the frames delivered, gaps in which no magic begins, and the leftover |
| Framing.UnacceptableBlocks | ZhkeyesIMServer/IMSession.cpp:113-115 | behind the magic of a header that is not acceptable nothing is taken out, whatever follows |
| Framing.OversizedBlocks | ZhkeyesIMServer/IMSession.cpp:46-125 | one message over the packet limit: the messages before it arrive, and nothing after it ever does, however the stream is cut |
| ImSession.IMSession.OnRead | ZhkeyesIMServer/IMSession.cpp:42-127 | one callback hands over the messages in the buffer and leaves the rest, as the loop's function says |
| ImSession.Serve | net/TCPConnection.cpp:110-139 | a whole connection's reads, each followed by the callback: exactly the messages of the stream are handled, exactly its leftover stays |
| TcpManager.TcpManager.GenerateSeqId | ZhKeyesIMClient/NetWork/TcpManager.cpp:225-229 | hands out the counter's numbers one after the other |
| TcpManager.TcpManager.AddPendingRequest | ZhKeyesIMClient/NetWork/TcpManager.cpp:244-248 | stores the handler under the request's 32-bit number |
| TcpManager.TcpManager.HandleResponseBySeqId | ZhKeyesIMClient/NetWork/TcpManager.cpp:250-278 | true exactly when the handler stored for the message's number took it; the entry is gone either way |
| TcpManager.TcpManager.Route | ZhKeyesIMClient/NetWork/TcpManager.cpp:358-362 | every message goes to exactly one of its handler and the dispatcher |
| TcpManager.TcpManager.OnTcpResponse | ZhKeyesIMClient/NetWork/TcpManager.cpp:281-368 | one callback routes exactly the messages in the buffer, in order, and leaves the rest |
| TcpManager.Receive | ZhKeyesIMClient/NetWork/TcpManager.cpp:281-368 | the client's copy of the loop over a whole connection: exactly the messages of the stream are routed |
| PendingRequests.StepKeeps | ZhKeyesIMClient/NetWork/TcpManager.cpp:225-278 | every step keeps the matching invariant and storing never replaces a pending handler |
| PendingRequests.GoesToItsHandler | ZhKeyesIMClient/NetWork/TcpManager.cpp:250-278 | every message goes to the handler stored under its number if and only if there is one, it can be called and the number is not 0; only that entry goes |
| PendingRequests.RunsAreMatched | ZhKeyesIMClient/NetWork/TcpManager.cpp:225-278 | over every run each handler runs at most once, only on its own number, and every arrival is logged exactly once in order |
| PendingRequests.FromStart | ZhKeyesIMClient/NetWork/TcpManager.cpp:225-278 | the same for every run of up to 2^32 - 1 requests from the start |
| PendingRequests.AnswerableIff | ZhKeyesIMClient/NetWork/TcpManager.cpp:254-258 | some message reaches the handler of request n if and only if n is not a multiple of 2^32 |
| PendingRequests.RunKeepsFiled | ZhKeyesIMClient/NetWork/TcpManager.cpp:244-278 | in every run, however many numbers are drawn, handlers are filed under their own seqId |
| PendingRequests.StoreReplacesIff | ZhKeyesIMClient/NetWork/TcpManager.cpp:244-248 | in every run of any length, storing the handler of request n drives a pending one out if and only if a request congruent to n modulo 2^32 is pending |
| PendingRequests.WrapOverwrites | ZhKeyesIMClient/NetWork/TcpManager.cpp:225-248 | a run from the start in which the handler of request 2^32 + 1 replaces that of request 1, which never ran |
| Connection.SendKeeps | net/TCPConnection.cpp:207-270 | a send loses and reorders no byte and keeps the write-event invariant, whatever the kernel answers |
| Connection.WriteKeeps | net/TCPConnection.cpp:141-181 | a write event loses and reorders no byte and keeps the write-event invariant |
| Connection.SendResultMeans | net/TCPConnection.cpp:207-270 | true: all data was taken over; false: the connection is closed; false if and only if there was data and the connection was closed, or offered it and the kernel refused for another reason than lack of room |
| Connection.SendMoves | net/TCPConnection.cpp:215-268 | the kernel gets exactly what it answers, from the front; the connection stays open if and only if the result is true and it did not drain after a shutdown request; writing is then enabled exactly while bytes are pending; a close is recorded with its cause |
| Connection.WriteMoves | net/TCPConnection.cpp:141-181 | the kernel gets exactly what it answers; an open connection closes if and only if bytes were pending and the kernel failed, or drained them after a shutdown request; writing stays enabled exactly while bytes are pending |
| Connection.ShutdownMeans | net/TCPConnection.cpp:50-57 | a request to shut down closes gracefully with nothing unsent, or is remembered and changes nothing else |
| Connection.ReadingSwitched | net/TCPConnection.cpp:67-108 | pausing and resuming switch reading and its registration and touch nothing else |
| Connection.ForeignAsOwn | net/TCPConnection.cpp:33-65 | what another thread asks for is done as if the loop's own thread had asked |
| Connection.DrainingCloses | net/TCPConnection.cpp:162-173 | after a shutdown request, the send or write event that empties the buffer closes the socket with nothing unsent |
| Connection.OutputStream | net/EventLoop.cpp:231-243 | in every schedule: bytes sent and pending are the payloads taken, in order; tasks run once each in registration order; a foreign thread's payloads keep its program order |
| Connection.NothingStranded | net/TCPConnection.cpp:46-65 | in every schedule: an open socket with pending bytes has its write event registered, and a close due to shutdownAfterWrite left nothing unsent |
| Connection.NeverBreaks | net/TCPConnection.cpp:141-270 | in every run without kernel failures, peer closes and shutdown requests the connection is never closed, and every foreign thread's payloads are taken completely, in order |
| Connection.ShutdownForgottenIff | net/TCPConnection.cpp:46-65 | over all schedules that follow a request to shut an open connection down: one of them ends with it open, drained and without write interest if and only if nothing was pending and writing was enabled |
| Connection.DrainedWithEventPending | net/TCPConnection.cpp:215-246 | a run from the start that reaches such a state, with both payloads sent |
| Connection.CleanStays | net/Poll.cpp:20-37 | in every run in which the multiplexer lowers no flag, no close leaves interest registered |
| Connection.ClosesLeaveInterest | net/Epoll.cpp:102-120 | two runs with lowered flags in which a close, by the peer and graceful, leaves interest registered |
| TcpConnection.TCPConnection.OnClose | net/TCPConnection.cpp:183-205 | closes the socket; the descriptor stays in the multiplexer exactly with the interests that were registered while their flag was down |
| TcpConnection.TCPConnection.SendInterval | net/TCPConnection.cpp:207-270 | the connection moves as the state machine's send, over the real buffer |
| TcpConnection.TCPConnection.OnWrite | net/TCPConnection.cpp:141-181 | the connection moves as the state machine's write event |
| TcpConnection.TCPConnection.ShutdownAfterWrite | net/TCPConnection.cpp:46-58 | the connection moves as the state machine's shutdown |
| TcpConnection.TCPConnection.RegisterReadEvent | net/TCPConnection.cpp:277-287 | the read event is registered afterwards, in the flag and in the multiplexer |
| TcpConnection.TCPConnection.RegisterWriteEvent | net/TCPConnection.cpp:289-299 | the write event is registered afterwards, in the flag and in the multiplexer |
| TcpConnection.TCPConnection.UnregisterReadEvent | net/TCPConnection.cpp:301-311 | the read event is not registered afterwards; an open socket's entry in the multiplexer still agrees with both flags |
| TcpConnection.TCPConnection.UnregisterWriteEvent | net/TCPConnection.cpp:313-323 | the write event is not registered afterwards; an open socket's entry in the multiplexer still agrees with both flags |
| TcpConnection.TCPConnection.PauseRead | net/TCPConnection.cpp:67-80 | the connection moves as the state machine's pause |
| TcpConnection.TCPConnection.ResumeRead | net/TCPConnection.cpp:89-101 | the connection moves as the state machine's resume |
| TcpConnection.EventLoop.RegisterCustomTask | net/EventLoop.cpp:145-154 | the task goes behind all others |
| TcpConnection.EventLoop.DoOtherTasks | net/EventLoop.cpp:231-243 | every task handed over runs exactly once, in order; those handed over meanwhile wait; the whole is the state machine's run of these steps |
| TcpConnection.Drive | net/EventLoop.cpp:35-66 | any schedule on the objects: sent and buffered bytes are the payloads taken, pending bytes have their write interest in the multiplexer, nothing was unsent at a graceful close |
| InterestMap.TableIsHistory | net/IOMultiplex.h:18-24 | a descriptor is in the table exactly when reading or writing was asked for and not taken back, with that interest and the dispatcher registered last |
| Poll.Poll.Register | net/Poll.cpp:40-79 | both register calls update the table as specified; entries stay unique and agree with the map |
| Poll.Poll.Unregister | net/Poll.cpp:81-119 | both unregister calls update the table as specified; an entry without interest is erased from both structures |
| Poll.Poll.UnregisterAllEvent | net/Poll.cpp:121-130 | the descriptor leaves both structures |
| Select.Select.RegisterReadEvent | net/Select.cpp:76-82 | updates the table as specified and keeps the maximum |
| Select.Select.RegisterWriteEvent | net/Select.cpp:93-98 | updates the table as specified and keeps the maximum |
| Select.Select.HighestFd | net/Select.cpp:121-128 | the loop over the map finds its largest descriptor, or -1 |
| Select.Select.UnregisterReadEvent | net/Select.cpp:113-130 | updates the table as specified; the map keeps the descriptors of both sets and m_maxfd their maximum |
| Select.Select.UnregisterWriteEvent | net/Select.cpp:145-162 | updates the table as specified; the map keeps the descriptors of both sets and m_maxfd their maximum |
| Select.Select.UnregisterAllEvent | net/Select.cpp:174-187 | the descriptor leaves sets and map; m_maxfd is the new maximum |
| Epoll.Epoll.RegisterReadEvent | net/Epoll.cpp:257-292 | issues only commands the kernel accepts and keeps the flags equal to the kernel's interest |
| Epoll.Epoll.RegisterWriteEvent | net/Epoll.cpp:323-356 | issues only commands the kernel accepts and keeps the flags equal to the kernel's interest |
| Epoll.Epoll.UnregisterReadEvent | net/Epoll.cpp:373-410 | modifies or deletes only what the kernel holds; no entry with empty flags remains |
| Epoll.Epoll.UnregisterWriteEvent | net/Epoll.cpp:434-467 | modifies or deletes only what the kernel holds; no entry with empty flags remains |
| Epoll.Epoll.UnregisterAllEvent | net/Epoll.cpp:480-498 | deletes only what the kernel holds |
| Epoll.AgreesIff | net/Epoll.cpp:272-273 | Epoll changes the table as Poll and Select do if and only if, where the dispatcher matters, it is the registered one |
| Epoll.CloseKeepsIff | net/Epoll.cpp:261-279 | the flags still mirror the kernel after a close if and only if the descriptor had none |
| Epoll.ReuseAfterClose | net/Epoll.cpp:257-292 | a reused descriptor's read interest reaches the kernel if and only if the closed one left nothing behind; the crash path is taken exactly if it left write interest alone |
| Backends.RunAll | net/Poll.cpp:40-130 | after every sequence of calls in which a registered descriptor keeps its dispatcher, Poll, Select and Epoll hold the same table, and Epoll never reached its crash path |
| WorkPool.StepMoves | util/WorkThreadPool.cpp:119-196 | a step moves a task from place to place; only accepting it puts it somewhere |
| WorkPool.Conservation | util/WorkThreadPool.cpp:86-196 | in every interleaving each accepted task is in exactly one of: queued, held by a worker, finished, discarded |
| WorkPool.EveryInterleaving | util/WorkThreadPool.cpp:119-196 | in every interleaving: first in first out, queue within its limit, both counters exact, workers return only when stopping with an empty queue |
| WorkPool.GracefulStop | util/WorkThreadPool.cpp:58-84 | without stopNow, once all workers of a running pool have returned, every accepted task has run exactly once |
| WorkPool.RefusedIff | util/WorkThreadPool.cpp:124-134 | a task is refused if and only if the pool is stopping, or has a limit and holds that many tasks; an accepted one goes last |
| WorkPool.WakeTakesOldest | util/WorkThreadPool.cpp:159-176 | a woken worker takes the oldest task if there is one, stopping or not, and returns if there is none |
| WorkPool.ControlMeans | util/WorkThreadPool.cpp:29-117 | start matters only to a pool that is not running and makes it accept with idle workers; stop and stopNow matter only to a running one, which then accepts nothing; stop keeps the queue, stopNow discards it |
| WorkPool.WorkersMakeProgress | util/WorkThreadPool.cpp:152-196 | every worker step lowers the remaining work, stopping or not; once stopping, no other step raises it |
| WorkPool.WorkersComeToRest | util/WorkThreadPool.cpp:152-196 | left to themselves the workers take at most as many steps as work remains |
| WorkPool.AcceptedGetsDone | util/WorkThreadPool.cpp:119-196 | in a running pool, after any history and without a stop, once the workers come to rest every accepted task has run exactly once or was discarded by an earlier stopNow |
| WorkPool.StopNeverStuck | util/WorkThreadPool.cpp:159-170 | a stopping pool can join or some worker can move |
| WorkThreadPool.WorkThreadPool.Start | util/WorkThreadPool.cpp:29-56 | starts the workers unless running, and says whether it did |
| WorkThreadPool.WorkThreadPool.Enqueue | util/WorkThreadPool.cpp:119-139 | accepts exactly when not stopping and not full |
| WorkThreadPool.WorkThreadPool.Wake | util/WorkThreadPool.cpp:155-177 | the worker's critical section: return, or take the oldest task |
| WorkThreadPool.WorkThreadPool.Begin | util/WorkThreadPool.cpp:180-181 | the worker starts its task and counts it active |
| WorkThreadPool.WorkThreadPool.End | util/WorkThreadPool.cpp:183-193 | the task is over, also when it threw |
| WorkThreadPool.WorkThreadPool.Count | util/WorkThreadPool.cpp:194 | the task is counted completed and the worker waits again |
| WorkThreadPool.WorkThreadPool.SignalStop | util/WorkThreadPool.cpp:58-71 | raises the stop flag of a running pool |
| WorkThreadPool.WorkThreadPool.SignalStopNow | util/WorkThreadPool.cpp:86-105 | raises both flags of a running pool and discards exactly the queued tasks |
| WorkThreadPool.WorkThreadPool.Join | util/WorkThreadPool.cpp:73-80 | when all workers have returned the pool is not running and has none |
| WorkThreadPool.Drive | util/WorkThreadPool.cpp:29-200 | any interleaving on the object: no task lost or doubled, order and limit kept, and without stopNow every accepted task has run once when the workers have returned |
| TimerRules.Safety | net/Timer.cpp:39-60 | for any schedule of checks: at most n fires; fire j not before start + j intervals in fixed-interval mode; at least an interval apart in fixed-rate mode |
| TimerRules.OnTime | net/Timer.cpp:39-60 | at its deadlines a timer fires each time until its repeat count is used up, and then never |
| TimerRules.CheckFiresIff | net/EventLoop.cpp:256-264 | after any schedule of checks the next one fires if and only if repeats are left and its reading has reached the deadline, told from the start or the last fire, however late |
| TimerRules.FiresAtFirstReading | net/EventLoop.cpp:258 | a timer with repeats left fires at the first reading that has reached its deadline |
| Timers.Timer.constructor | net/Timer.cpp:6-19 | the first deadline is one interval ahead |
| Timers.Timer.DoTimer | net/Timer.cpp:39-60 | fires and reschedules as the rules say |
| Timers.TimerLists.AddTimerInternal | net/EventLoop.cpp:286-298 | deferred while the list is walked, appended otherwise |
| Timers.TimerLists.RemoveTimerInternal | net/EventLoop.cpp:307-326 | deferred while the list is walked; otherwise the first timer with the id leaves |
| Timers.TimerLists.CheckAndDoTimers | net/EventLoop.cpp:245-279 | whatever callbacks ask for, exactly the timers listed at the start are checked, once per entry and in order, and each fires at its first entry exactly if it has repeats left and its deadline is reached; requests take effect only afterwards |
| Timers.RemovalsTakeFirst | net/EventLoop.cpp:268-272 | of the entries with an id the deferred removals take out as many as name it, from the front; entries with other ids stay |
| Timers.WalkChecks | net/EventLoop.cpp:256-264 | a timer listed several times gets that many checks at the same time, and no others |
| Timers.PassKeeps | net/EventLoop.cpp:256-264 | a pass keeps every timer within its repeat count and schedule, however often it is listed |
| ChatServers.LeastIsFirstMinimum | StatusServer/Repository/ChatServerRepository.cpp:20-57 | the loop ends with the first server of smallest count, or with none if no count is usable |
| ChatServers.SuccessIncrementsAMinimum | StatusServer/Repository/ChatServerRepository.cpp:58-86 | a success increments exactly one server, which was a minimum, and hands out its host, its port modulo 2^16, and its name or, if empty, the listed one |
| ChatServers.OneRequest | StatusServer/Repository/ChatServerRepository.cpp:58-92 | one request moves only the chosen server's count: up by one if it is handed out or its port throws, from below zero to zero if its record is lacking |
| ChatServers.TextsAfter | StatusServer/Repository/ChatServerRepository.cpp:42-47 | after a request every listed server has a stored count, a missing one being 0, and only the chosen server's was changed otherwise |
| ChatServers.DecrementedIs | StatusServer/Repository/ChatServerRepository.cpp:100-113 | the rollback takes one off exactly this count and lifts a readable negative result to 0 |
| ChatServers.FailureRestoresIff | StatusServer/Repository/ChatServerRepository.cpp:75-92 | a failure restores every count if and only if, in the store before, no server can be chosen, or the chosen one's record lacks host or port and its count is not negative |
| ChatServers.StaysBalanced | StatusServer/Repository/ChatServerRepository.cpp:8-93 | one request keeps all counts within one of each other |
| ChatServers.GreedyBalance | StatusServer/Repository/ChatServerRepository.cpp:8-93 | any number of requests without releases keeps all counts within one of each other |
| ChatServers.ThrowingLeaks | StatusServer/Repository/ChatServerRepository.cpp:161 | for every store, a port that throws raises exactly the chosen server's count by one |
| ChatServers.CountsGrow | StatusServer/Repository/ChatServerRepository.cpp:8-93 | over any number of requests a server's count grows by the times it was handed out plus the times its port threw |
| ChatServers.AllThrow | StatusServer/Repository/ChatServerRepository.cpp:88-92 | where all ports throw, every request does until the counts reach the int maximum |
| ChatServerRepository.ChatServerRepository.IncrementConnectionCount | StatusServer/Repository/ChatServerRepository.cpp:95-98 | adds one to exactly this server's count unless it is no number |
| ChatServerRepository.ChatServerRepository.DecrementConnectionCount | StatusServer/Repository/ChatServerRepository.cpp:100-113 | takes one off and lifts a negative result to zero; a missing count becomes zero, a text is refused |
| ChatServerRepository.ChatServerRepository.GetConnectionCount | StatusServer/Repository/ChatServerRepository.cpp:115-130 | the count if it is an int, none otherwise |
| ChatServerRepository.ChatServerRepository.FindMinimum | StatusServer/Repository/ChatServerRepository.cpp:20-57 | the loop computes the least count and its first server, storing missing counts as zero |
| ChatServerRepository.ChatServerRepository.GetServerWithMinConnections | StatusServer/Repository/ChatServerRepository.cpp:8-93 | every path, including rollback and exception, ends in the specified store and outcome |
| SessionIndex.StepKeeps | ZhkeyesIMServer/IMServer.cpp:182-226 | every operation, by whatever session object, keeps socket index and session table in bijection |
| SessionIndex.EveryRun | ZhkeyesIMServer/IMServer.cpp:182-226 | every run keeps them in bijection, with descriptors reused as soon as the kernel allows |
| SessionIndex.AcceptOverwritesNothing | ZhkeyesIMServer/IMServer.cpp:182-192 | an accept, also after the session number wrapped around, leaves every entry of the indices alone and makes one session without uid |
| SessionIndex.DisconnectMoves | ZhkeyesIMServer/IMServer.cpp:194-226 | a close callback moves exactly the socket's session from the table to those to be deleted and removes the entry of its uid |
| SessionIndex.ObjectsKept | ZhkeyesIMServer/IMServer.cpp:182-226 | in every run each session object is in the table or waits for deletion exactly once |
| SessionIndex.FromStart | ZhkeyesIMServer/IMServer.cpp:100-104 | in every run from the start: the bijection holds, exactly the descriptors between accept and close callback are indexed, and uid entries always name live sessions of that uid if and only if every authentication comes in time |
| SessionIndex.AuthenticationKeepsIff | ZhkeyesIMServer/IMSession.cpp:28-33 | an authentication by any session object keeps uid entries live if and only if the session is still in the table, the uid is not 0 and no entry under an old uid stays behind |
| SessionIndex.UsersLiveIff | ZhkeyesIMServer/IMServer.cpp:100-226 | over a whole run uid entries always name live sessions if and only if every authentication is such |
| SessionIndex.LateAuthentication | ZhkeyesIMServer/Service/IMUserService.cpp:24-38 | a run in which a session authenticates once, after it left the table, and the uid entry names it |
| SessionIndex.TakeoverUnlistsIff | ZhkeyesIMServer/IMServer.cpp:100-104 | an authentication keeps every live authenticated session listed under its uid if and only if it takes no uid over |
| SessionIndex.ListedIff | ZhkeyesIMServer/IMServer.cpp:100-226 | over a whole run they are always listed if and only if no authentication takes a uid over |
| SessionIndex.DoubleLogin | ZhkeyesIMServer/IMServer.cpp:208-211 | a run with two logins of one user after which the live session is not listed |
| SessionIndex.DisconnectUnlistsIff | ZhkeyesIMServer/IMServer.cpp:208-211 | a disconnect removes another session's uid entry if and only if its uid is listed for another; never while all sessions are listed |
| SessionIndex.ReuseBeforeCallbackBreaks | net/TCPConnection.cpp:197-204 | had the descriptor been reused before the close callback, the bijection would be lost |
| ImServer.IMServer.OnConnected | ZhkeyesIMServer/IMServer.cpp:182-192 | the indices move as the state machine's accept |
| ImServer.IMServer.SetUserInfo | ZhkeyesIMServer/IMSession.cpp:28-33 | session and uid index move as the state machine's authentication |
| ImServer.IMServer.OnDisConnected | ZhkeyesIMServer/IMServer.cpp:194-226 | the indices move as the state machine's close callback |
| ImServer.Drive | ZhkeyesIMServer/IMServer.cpp:100-226 | any legal run on the object: bijection, indexed descriptors, no session object lost, and the uid properties under the conditions above |

## Left out

- Windows and IOCP branches, sockets, the eventfd wake-up, locks and condition variables as such, thread-ID checks: a method that defers to the owner thread is modelled on that thread, and its deferral as a task.
- The `poll`, `select` and `epoll_wait` calls and the ready flags they set: they differ between the backends; the connection model lets `m_enableWrite` be flipped at any time, to true only where write interest is registered.
- `startRead` is resumeRead on an open socket; that the loop's register call waits for the loop's thread when it is made on another is not modelled. ImSession.Serve takes reads with the callback enabled.
- Connection.NothingStranded: assumes a write callback that does not itself send (the server's is empty) and a close callback that does not re-enter the connection; it says nothing about how soon a socket closes.
- Connection.OutputStream: byte counts are unbounded; the cast of the readable bytes to `int` before `::send` is exact below 2^31.
- Framing.ChunkingDoesNotMatter: no progress is claimed behind a magic whose header is not acceptable. The loop breaks there without dropping anything, and so does the meaning: such a stream waits for ever (Framing.UnacceptableBlocks).
- ImSession.IMSession.OnRead: a handled message is recorded; the handlers and the type dispatcher's table are not modelled.
- TcpManager.TcpManager.OnTcpResponse: a handler or dispatched message is recorded; what handlers do, such as sending further requests, would be further steps.
- PendingRequests.FromStart: the 64-bit counter does not wrap; a response that overtakes its handler's storing goes to the dispatcher, and no liveness is claimed.
- BinaryReader.BinaryReader.ReadVar: the shift of a sixth (eleventh) byte is treated as rejection, and a failed variable-length or string read is not claimed to restore the cursor, because the code does not.
- BinaryReader.BinaryReader.ReadBytes: the addition of cursor and length is on unbounded integers; `skip` and the position getters are left out.
- BinaryWriter.BinaryWriter.WriteString: after a failure only the bytes already in the buffer are described.
- ImMessage.WireParses: bodies whose size with the header exceeds 32 bits are outside it; the writer's cap refuses them long before.
- Flag and field setters of IMMessage, `findCRLF`, `retrieveUntil`, copying of buffers: short expressions.
- Moved-from Buffer objects: their indices are 8 over an empty vector, outside the class invariant.
- Select.Select.RegisterReadEvent: descriptors are below FD_SETSIZE; beyond that FD_SET is undefined.
- Backends.RunAll: closes of descriptors are not among its calls, so it holds for descriptors closed only after they were unregistered. TCPConnection can violate this (Connection.ClosesLeaveInterest); Epoll.ReuseAfterClose says what follows.
- Epoll.Epoll.RegisterReadEvent: epoll_ctl fails only for an absent or a present descriptor.
- WorkThreadPool.WorkThreadPool.Start: threads always start; a failure after some have started, and start and stop called at the same time by several threads, are not modelled.
- WorkThreadPool.WorkThreadPool.Wake: tasks are numbers and never empty functions; the futures handed out by `submit` are left out.
- Timers.TimerLists.CheckAndDoTimers: the pending lists are never emptied, as in the code, so a timer added in a callback is listed again on each later pass; nothing is claimed about membership across passes. Callbacks act only through add and remove requests.
- TimerRules.Safety: repeat counts below -1 are left out; times are unbounded integers.
- ChatServers.Allocate: Redis always answers, HINCRBY neither fails on numbers nor overflows 64 bits, and a stored text is a number or has no number in front ("12abc" is left out).
- SessionIndex.EveryRun: each operation is one atomic step, so races between the user and the session mutex are left out; an uninitialised uid is 0; fewer than 2^32 sessions are made; the list of sessions to delete is never emptied, as in the code, so every session object lives on. Calls to the user repository are left out.
- Generated protobuf and gRPC code, MySQL, Redis transport, HTTP, the Qt client's interface, configuration, JSON and logging: plumbing, or libraries outside the repository.
