/** IMProtocol/IMProtocol.h and IMProtocol/IMMessage.{h,cpp}: the 18-byte header, the message
    object and its wire form. */
module ImMessage {
  import opened Bytes
  import opened ByteOrder
  import opened Codec
  import opened Wrappers
  import W = BinaryWriter
  import R = BinaryReader

  const PROTOCOL_MAGIC: uint32 := 0x5A48_4B59
  const PROTOCOL_VERSION: byte := 1
  const HEADER_SIZE := 18
  const MAX_PACKET_SIZE := 1024 * 1024

  datatype Header = Header(magic: uint32, length: uint32, version: byte, msgType: uint16,
                           seqId: uint32, flags: byte, reserve: uint16)

  datatype Message = Message(header: Header, body: seq<byte>)

  /** `HEADER_SIZE + body.size()` stored in the 32-bit length field. */
  function LengthFor(body: seq<byte>): uint32
  {
    (HEADER_SIZE + |body|) % 0x1_0000_0000
  }

  predicate IsValid(m: Message)
  {
    && m.header.magic == PROTOCOL_MAGIC
    && HEADER_SIZE <= m.header.length <= MAX_PACKET_SIZE
    && m.header.length == HEADER_SIZE + |m.body|
  }

  function HeaderBytes(h: Header): (bs: seq<byte>)
    ensures |bs| == HEADER_SIZE
  {
    HighFirst(h.magic, 4) + HighFirst(h.length, 4) + [h.version] + HighFirst(h.msgType, 2)
    + HighFirst(h.seqId, 4) + [h.flags] + HighFirst(h.reserve, 2)
  }

  /** The bytes `serialize` produces: the length field is recomputed from the body. */
  function Wire(m: Message): (bs: seq<byte>)
    ensures |bs| == HEADER_SIZE + |m.body|
  {
    HeaderBytes(m.header.(length := LengthFor(m.body))) + m.body
  }

  function HeaderAt(bs: seq<byte>): Header
    requires |bs| >= HEADER_SIZE
  {
    Ranges();
    Header(ValueHighFirst(bs[0..4]), ValueHighFirst(bs[4..8]), bs[8], ValueHighFirst(bs[9..11]),
           ValueHighFirst(bs[11..15]), bs[15], ValueHighFirst(bs[16..18]))
  }

  predicate Acceptable(h: Header)
  {
    h.magic == PROTOCOL_MAGIC && HEADER_SIZE <= h.length <= MAX_PACKET_SIZE
  }

  /** The message at the front of bs, when header and body are complete and the header is valid. */
  function Parse(bs: seq<byte>): (m: Option<Message>)
    ensures m.Some? ==> IsValid(m.value) && m.value.header.length <= |bs|
  {
    if |bs| < HEADER_SIZE || !Acceptable(HeaderAt(bs)) || |bs| < HeaderAt(bs).length then None
    else Some(Message(HeaderAt(bs), bs[HEADER_SIZE..HeaderAt(bs).length]))
  }

  /** The five wide fields of a header as slices of its bytes, the first half and the second. */
  lemma FirstFields(h: Header, after: seq<byte>)
    ensures var bs := HeaderBytes(h) + after;
      bs[0..4] == HighFirst(h.magic, 4) && bs[4..8] == HighFirst(h.length, 4) && bs[8] == h.version
      && bs[9..11] == HighFirst(h.msgType, 2)
  {}

  lemma LastFields(h: Header, after: seq<byte>)
    ensures var bs := HeaderBytes(h) + after;
      bs[11..15] == HighFirst(h.seqId, 4) && bs[15] == h.flags && bs[16..18] == HighFirst(h.reserve, 2)
  {}

  lemma HeaderAtBytes(h: Header, after: seq<byte>)
    ensures HeaderAt(HeaderBytes(h) + after) == h
  {
    hide HeaderBytes, HighFirst, ValueHighFirst;
    Ranges();
    HighFirstValue(h.magic, 4); HighFirstValue(h.length, 4); HighFirstValue(h.msgType, 2);
    HighFirstValue(h.seqId, 4); HighFirstValue(h.reserve, 2);
    FirstFields(h, after);
    LastFields(h, after);
  }

  lemma HeaderBytesAt(bs: seq<byte>)
    requires |bs| >= HEADER_SIZE
    ensures HeaderBytes(HeaderAt(bs)) == bs[..HEADER_SIZE]
  {
    ValueHighFirstBytes(bs[0..4]); ValueHighFirstBytes(bs[4..8]); ValueHighFirstBytes(bs[9..11]);
    ValueHighFirstBytes(bs[11..15]); ValueHighFirstBytes(bs[16..18]);
    assert bs[..HEADER_SIZE] == bs[0..4] + bs[4..8] + [bs[8]] + bs[9..11] + bs[11..15] + [bs[15]] + bs[16..18];
  }

  /** Where the fields are in a serialized message: "ZHKY" at 0, the total length at 4, the version at 8, the
      type at 9, the seqId at 11, the flags at 15, the reserved field at 16, the body from 18. */
  lemma WireLayout(m: Message)
    requires m.header.magic == PROTOCOL_MAGIC && HEADER_SIZE + |m.body| < 0x1_0000_0000
    ensures var bs := Wire(m);
      bs[0..4] == [0x5A, 0x48, 0x4B, 0x59] && ValueHighFirst(bs[4..8]) == |bs| && bs[8] == m.header.version
      && ValueHighFirst(bs[9..11]) == m.header.msgType && ValueHighFirst(bs[11..15]) == m.header.seqId
      && bs[15] == m.header.flags && ValueHighFirst(bs[16..18]) == m.header.reserve && bs[18..] == m.body
  {
    hide HeaderBytes, HighFirst, ValueHighFirst;
    var h := m.header.(length := LengthFor(m.body));
    Ranges();
    HighFirstValue(h.length, 4); HighFirstValue(h.msgType, 2); HighFirstValue(h.seqId, 4); HighFirstValue(h.reserve, 2);
    FirstFields(h, m.body);
    LastFields(h, m.body);
    MagicSpells();
  }

  lemma MagicSpells()
    ensures HighFirst(PROTOCOL_MAGIC, 4) == [0x5A, 0x48, 0x4B, 0x59]
  {
    assert HighFirst(0x5A, 1) == [0x5A];
    assert HighFirst(0x5A48, 2) == [0x5A, 0x48];
    assert HighFirst(0x5A484B, 3) == [0x5A, 0x48, 0x4B];
  }

  /** What the parser accepts and what it makes of it, on all inputs: exactly the magic and a length within
      the limits that is there in full, with the fields where WireLayout has them. */
  lemma ParseLayout(bs: seq<byte>)
    ensures Parse(bs).Some? <==>
      |bs| >= 18 && bs[0..4] == [0x5A, 0x48, 0x4B, 0x59]
      && 18 <= ValueHighFirst(bs[4..8]) <= 0x10_0000 && ValueHighFirst(bs[4..8]) <= |bs|
    ensures Parse(bs).Some? ==>
      var (h, n) := (Parse(bs).value.header, ValueHighFirst(bs[4..8]));
      h.length == n && h.version == bs[8] && h.msgType == ValueHighFirst(bs[9..11])
      && h.seqId == ValueHighFirst(bs[11..15]) && h.flags == bs[15] && h.reserve == ValueHighFirst(bs[16..18])
      && Parse(bs).value.body == bs[18..n]
  {
    MagicSpells();
    if |bs| >= HEADER_SIZE {
      Ranges();
      ValueHighFirstBytes(bs[0..4]);
      HighFirstValue(PROTOCOL_MAGIC, 4);
      hide HighFirst, ValueHighFirst;
      assert HeaderAt(bs).magic == PROTOCOL_MAGIC <==> bs[0..4] == HighFirst(PROTOCOL_MAGIC, 4);
    }
  }

  lemma Slice(a: seq<byte>, b: seq<byte>, c: seq<byte>)
    ensures ((a + b) + c)[|a|..|a| + |b|] == b
  {}

  /** Parsing what was serialized: the message comes back, with its length field set, exactly when
      its magic is right and it is at most MAX_PACKET_SIZE long. A longer body that still fits the
      writer's cap is sent and then never accepted. */
  lemma WireParses(m: Message, after: seq<byte>)
    requires |m.body| < 0x1_0000_0000 - HEADER_SIZE
    ensures Parse(Wire(m) + after) ==
      if m.header.magic == PROTOCOL_MAGIC && HEADER_SIZE + |m.body| <= MAX_PACKET_SIZE
      then Some(m.(header := m.header.(length := LengthFor(m.body)))) else None
  {
    var h := m.header.(length := LengthFor(m.body));
    var bs := Wire(m) + after;
    Associates(HeaderBytes(h), m.body, after);
    HeaderAtBytes(h, m.body + after);
    assert bs[HEADER_SIZE..HEADER_SIZE + |m.body|] == m.body by {
      Slice(HeaderBytes(h), m.body, after);
    }
  }

  /** isValid is exactly what makes a message survive the wire unchanged, whatever follows it. */
  lemma ValidIffSurvives(m: Message, after: seq<byte>)
    requires |m.body| < 0x1_0000_0000 - HEADER_SIZE
    ensures IsValid(m) <==> Parse(Wire(m) + after) == Some(m)
  {
    WireParses(m, after);
  }

  /** A parsed message serializes to exactly the bytes it was parsed from. */
  lemma ParseWires(bs: seq<byte>)
    requires Parse(bs).Some?
    ensures Wire(Parse(bs).value) == bs[..Parse(bs).value.header.length]
  {
    var m := Parse(bs).value;
    HeaderBytesAt(bs);
    assert m.header.(length := LengthFor(m.body)) == m.header;
    assert bs[..m.header.length] == bs[..HEADER_SIZE] + m.body;
  }

  /** Truncating a valid frame anywhere gives no message. */
  lemma PrefixDoesNotParse(m: Message, n: nat)
    requires IsValid(m) && n < |Wire(m)|
    ensures Parse(Wire(m)[..n]).None?
  {
    if n >= HEADER_SIZE {
      HeaderAtSlice(Wire(m), n);
      WireHeader(m);
    }
  }

  lemma WireHeader(m: Message)
    requires IsValid(m)
    ensures HeaderAt(Wire(m)) == m.header && |Wire(m)| == m.header.length
  {
    hide HeaderAt, HeaderBytes;
    HeaderAtBytes(m.header, m.body);
    assert m.header.(length := LengthFor(m.body)) == m.header;
  }

  /** The strict parser accepts exactly the wire forms of valid messages. */
  lemma ExactlyWires(data: seq<byte>)
    ensures Parse(data).Some? && Parse(data).value.header.length == |data| <==>
            exists m :: IsValid(m) && data == Wire(m)
  {
    if Parse(data).Some? && Parse(data).value.header.length == |data| {
      ParseWires(data);
      assert data[..|data|] == data;
    }
    forall m | IsValid(m) && data == Wire(m)
      ensures Parse(data) == Some(m) && m.header.length == |data|
    {
      WireHeader(m);
      ValidIffSurvives(m, []);
      assert Wire(m) + [] == data;
    }
  }

  lemma HeaderAtSlice(bs: seq<byte>, n: nat)
    requires HEADER_SIZE <= n <= |bs|
    ensures HeaderAt(bs[..n]) == HeaderAt(bs)
  {
    var t := bs[..n];
    assert t[0..4] == bs[0..4] && t[4..8] == bs[4..8] && t[9..11] == bs[9..11];
    assert t[11..15] == bs[11..15] && t[16..18] == bs[16..18];
  }

  class IMMessage {
    var header: Header
    var body: seq<byte>

    constructor (msgType: uint16, seqId: uint32, body: seq<byte>)
      ensures Value() == Message(Header(PROTOCOL_MAGIC, LengthFor(body), PROTOCOL_VERSION, msgType, seqId, 0, 0), body)
      ensures IsValid(Value()) <==> HEADER_SIZE + |body| <= MAX_PACKET_SIZE
    {
      header := Header(PROTOCOL_MAGIC, LengthFor(body), PROTOCOL_VERSION, msgType, seqId, 0, 0);
      this.body := body;
    }

    constructor FromParts(header: Header, body: seq<byte>)
      ensures Value() == Message(header, body)
    {
      this.header := header;
      this.body := body;
    }

    function Value(): Message
      reads this
    {
      Message(header, body)
    }

    /** Whatever the header held before, a body within the limit makes a message with the protocol
        magic valid again, and only such a body does. */
    method SetBody(body: seq<byte>)
      modifies this
      ensures Value() == Message(old(header).(length := LengthFor(body)), body)
      ensures IsValid(Value()) <==> old(header).magic == PROTOCOL_MAGIC && HEADER_SIZE + |body| <= MAX_PACKET_SIZE
    {
      this.body := body;
      header := header.(length := LengthFor(body));
    }

    /** The length of the given header is overridden. */
    method SetHeader(header: Header)
      modifies this
      ensures Value() == Message(header.(length := LengthFor(old(body))), old(body))
      ensures IsValid(Value()) <==> header.magic == PROTOCOL_MAGIC && HEADER_SIZE + |old(body)| <= MAX_PACKET_SIZE
    {
      this.header := header.(length := LengthFor(body));
    }

    method Clear()
      modifies this
      ensures IsValid(Value()) && body == [] && header.msgType == 0 && header.seqId == 0
    {
      header := Header(PROTOCOL_MAGIC, HEADER_SIZE, PROTOCOL_VERSION, 0, 0, 0, 0);
      body := [];
    }

    /** Refused (the writer throws) exactly when the wire form exceeds the writer's cap. */
    method Serialize(little: bool) returns (ok: bool, data: seq<byte>)
      ensures ok <==> HEADER_SIZE + |body| <= MAX_BUFFER_SIZE
      ensures ok ==> data == Wire(Value())
    {
      var h := header.(length := LengthFor(body));
      var w := new W.BinaryWriter(little);
      data := [];
      ok := w.WriteUInt32(h.magic);
      assert w.buffer == HighFirst(h.magic, 4);
      ok := w.WriteUInt32(h.length);
      assert w.buffer == HighFirst(h.magic, 4) + HighFirst(h.length, 4);
      ok := w.WriteUInt8(h.version);
      ok := w.WriteUInt16(h.msgType);
      ok := w.WriteUInt32(h.seqId);
      ok := w.WriteUInt8(h.flags);
      ok := w.WriteUInt16(h.reserve);
      assert w.buffer == HeaderBytes(h);
      ok := w.WriteBytes(body);
      if ok { data := w.buffer; }
    }

    /** The header fields read in wire order. */
    static method ReadHeader(r: R.BinaryReader) returns (h: Header)
      requires r.Valid() && |r.Rest()| >= HEADER_SIZE
      modifies r
      ensures r.Valid() && h == HeaderAt(old(r.Rest())) && r.Rest() == old(r.Rest())[HEADER_SIZE..]
    {
      ghost var s := r.Rest();
      var magic, length, version, msgType := ReadFirst(r);
      assert s[11..][..4] == s[11..15] && s[11..][4] == s[15] && s[11..][5..7] == s[16..18] && s[11..][7..] == s[18..];
      var seqId, flags, reserve := ReadLast(r);
      h := Header(magic, length, version, msgType, seqId, flags, reserve);
    }

    static method ReadFirst(r: R.BinaryReader) returns (magic: uint32, length: uint32, version: byte, msgType: uint16)
      requires r.Valid() && |r.Rest()| >= HEADER_SIZE
      modifies r
      ensures r.Valid() && r.Rest() == old(r.Rest())[11..]
      ensures var s := old(r.Rest());
        magic == ValueHighFirst(s[0..4]) && length == ValueHighFirst(s[4..8]) && version == s[8] && msgType == ValueHighFirst(s[9..11])
    {
      ghost var s := r.Rest();
      var ok;
      ok, magic := r.ReadUInt32();
      assert r.Rest() == s[4..] && s[..4] == s[0..4];
      ok, length := r.ReadUInt32();
      assert s[4..][..4] == s[4..8] && r.Rest() == s[8..];
      ok, version := r.ReadUInt8();
      assert r.Rest() == s[9..];
      ok, msgType := r.ReadUInt16();
      assert s[9..][..2] == s[9..11] && r.Rest() == s[11..];
    }

    static method ReadLast(r: R.BinaryReader) returns (seqId: uint32, flags: byte, reserve: uint16)
      requires r.Valid() && |r.Rest()| >= 7
      modifies r
      ensures r.Valid() && r.Rest() == old(r.Rest())[7..]
      ensures var s := old(r.Rest());
        seqId == ValueHighFirst(s[..4]) && flags == s[4] && reserve == ValueHighFirst(s[5..7])
    {
      ghost var s := r.Rest();
      var ok;
      ok, seqId := r.ReadUInt32();
      assert r.Rest() == s[4..];
      ok, flags := r.ReadUInt8();
      assert r.Rest() == s[5..];
      ok, reserve := r.ReadUInt16();
      assert s[5..][..2] == s[5..7] && r.Rest() == s[7..];
    }

    /** A null result also means "wait for more bytes". */
    static method DeserializeFromBuffer(data: seq<byte>, little: bool) returns (msg: IMMessage?)
      ensures msg != null ==> fresh(msg)
      ensures msg == null <==> Parse(data).None?
      ensures msg != null ==> Parse(data) == Some(msg.Value())
    {
      if |data| < HEADER_SIZE { return null; }
      var r := new R.BinaryReader(little, data);
      assert r.Rest() == data;
      var h := ReadHeader(r);
      if h.magic != PROTOCOL_MAGIC { return null; }
      if h.length < HEADER_SIZE || h.length > MAX_PACKET_SIZE { return null; }
      if |data| < h.length { return null; }
      var bodyLen := h.length - HEADER_SIZE;
      var body := [];
      if bodyLen > 0 {
        var ok;
        ok, body := r.ReadBytes(bodyLen);
        assert data[HEADER_SIZE..][..bodyLen] == data[HEADER_SIZE..h.length];
        if !ok { return null; }
      }
      msg := new IMMessage.FromParts(h, body);
    }

    /** The strict form: the data must be one message and nothing else. */
    static method Deserialize(data: seq<byte>, little: bool) returns (msg: IMMessage?)
      ensures msg != null ==> fresh(msg)
      ensures msg != null <==> Parse(data).Some? && Parse(data).value.header.length == |data|
      ensures msg != null ==> Parse(data) == Some(msg.Value())
    {
      msg := null;
      if |data| < HEADER_SIZE { return; }
      var r := new R.BinaryReader(little, data);
      assert r.Rest() == data;
      var h := ReadHeader(r);
      if h.magic != PROTOCOL_MAGIC { return; }
      if h.length < HEADER_SIZE || h.length > MAX_PACKET_SIZE { return; }
      if |data| != h.length { return; }
      var bodyLen := h.length - HEADER_SIZE;
      var body := [];
      if bodyLen > 0 {
        var ok;
        ok, body := r.ReadBytes(bodyLen);
        assert data[HEADER_SIZE..][..bodyLen] == data[HEADER_SIZE..h.length];
        if !ok { return; }
      }
      msg := new IMMessage.FromParts(h, body);
    }
  }
}
