/** The search for the magic, which both copies of the framing loop contain. */
module MagicSearch {
  import opened Bytes
  import opened ByteOrder
  import opened ImMessage
  import opened Framing
  import B = Buffer

  /** Scans the offsets 0..searchLimit; a word is compared only where four bytes are readable. */
  method Search(data: seq<byte>, searchLimit: nat, little: bool) returns (foundMagic: bool, magicOffset: nat)
    ensures foundMagic <==> FirstMagic(data, 0, searchLimit) <= searchLimit
    ensures foundMagic ==> magicOffset == FirstMagic(data, 0, searchLimit)
  {
    foundMagic, magicOffset := false, 0;
    var i := 0;
    while i <= searchLimit
      invariant i <= searchLimit + 1
      invariant forall j :: 0 <= j < i ==> !MagicAt(data, j)
    {
      if i + 4 <= |data| {
        var word := data[i..i + 4];
        LoadsNetworkOrder(little, [0, 0], word, [0, 0, 0, 0, 0, 0, 0, 0]);
        var magicValue := Convert32(little, FromMemory(little, word));
        if magicValue == PROTOCOL_MAGIC {
          foundMagic, magicOffset := true, i;
          FirstMagicIs(data, searchLimit, i);
          return;
        }
      }
      i := i + 1;
    }
    FirstMagicIs(data, searchLimit, searchLimit + 1);
  }

  /** What comes before the magic is dropped; the result is what the parser is given. */
  method DropGarbage(buf: B.Buffer, magicOffset: nat) returns (data: seq<byte>)
    requires buf.Valid() && magicOffset <= buf.ReadableBytes()
    modifies buf
    ensures buf.Valid() && buf.data == old(buf.data)
    ensures data == buf.Contents() == old(buf.Contents())[magicOffset..]
  {
    if magicOffset > 0 {
      buf.Retrieve(magicOffset);
    }
    data := buf.Contents();
  }
}
