/** net/Buffer.{h,cpp}: a byte queue kept in a vector between two indices, with room in front.
    The vector is an array that is replaced when it grows. */
module Buffer {
  import opened Bytes

  const CHEAP_PREPEND: nat := 8
  const INITIAL_SIZE: nat := 1024

  class Buffer {
    var data: array<byte>
    var readIndex: nat
    var writeIndex: nat

    predicate Valid()
      reads this
    {
      CHEAP_PREPEND <= data.Length && readIndex <= writeIndex <= data.Length
    }

    /** The queued bytes: everything a caller can observe. */
    function Contents(): (s: seq<byte>)
      requires Valid()
      reads this, data
      ensures |s| == ReadableBytes()
    {
      data[readIndex..writeIndex]
    }

    constructor ()
      ensures Valid() && fresh(data) && Contents() == []
      ensures PrependableBytes() == CHEAP_PREPEND && WritableBytes() == INITIAL_SIZE
    {
      data := new byte[CHEAP_PREPEND + INITIAL_SIZE](_ => 0);
      readIndex, writeIndex := CHEAP_PREPEND, CHEAP_PREPEND;
    }

    function ReadableBytes(): nat
      requires Valid()
      reads this
    {
      writeIndex - readIndex
    }

    function WritableBytes(): nat
      requires Valid()
      reads this
    {
      data.Length - writeIndex
    }

    function PrependableBytes(): nat
      reads this
    {
      readIndex
    }

    method Retrieve(len: nat)
      requires Valid() && len <= ReadableBytes()
      modifies this
      ensures Valid() && data == old(data) && Contents() == old(Contents())[len..]
    {
      if len < ReadableBytes() {
        readIndex := readIndex + len;
      } else {
        RetrieveAll();
      }
    }

    method RetrieveAll()
      requires Valid()
      modifies this
      ensures Valid() && data == old(data) && Contents() == []
      ensures PrependableBytes() == CHEAP_PREPEND
    {
      readIndex, writeIndex := CHEAP_PREPEND, CHEAP_PREPEND;
    }

    method RetrieveAsString(len: nat) returns (str: seq<byte>)
      requires Valid() && len <= ReadableBytes()
      modifies this
      ensures Valid() && data == old(data)
      ensures old(Contents()) == str + Contents() && |str| == len
    {
      str := data[readIndex..readIndex + len];
      Retrieve(len);
    }

    method Append(bytes: seq<byte>)
      requires Valid()
      modifies this, data
      ensures Valid() && (data == old(data) || fresh(data))
      ensures Contents() == old(Contents()) + bytes
    {
      EnsureWritableBytes(|bytes|);
      ghost var before := Contents();
      var (buf, at) := (data, writeIndex);
      for i := 0 to |bytes|
        invariant buf[readIndex..at] == before
        invariant buf[at..at + i] == bytes[..i]
        modifies buf
      {
        buf[at + i] := bytes[i];
      }
      writeIndex := writeIndex + |bytes|;
      assert Contents() == buf[readIndex..at] + buf[at..writeIndex];
    }

    method EnsureWritableBytes(len: nat)
      requires Valid()
      modifies this, data
      ensures Valid() && (data == old(data) || fresh(data))
      ensures Contents() == old(Contents()) && WritableBytes() >= len
    {
      if WritableBytes() < len {
        MakeSpace(len);
      }
    }

    /** Moves the bytes to the front only when they start beyond the reserved area, also after
        prepends made that start small: the overlapping copy always moves bytes to the left. */
    method MakeSpace(len: nat)
      requires Valid() && WritableBytes() < len
      modifies this, data
      ensures Valid() && Contents() == old(Contents()) && WritableBytes() >= len
      ensures if old(WritableBytes() + PrependableBytes()) < len + CHEAP_PREPEND
              then fresh(data) && data.Length > old(data.Length) && readIndex == old(readIndex)
              else data == old(data) && readIndex == CHEAP_PREPEND < old(readIndex)
    {
      if WritableBytes() + PrependableBytes() < len + CHEAP_PREPEND {
        Resize(writeIndex + len);
      } else {
        var readable := ReadableBytes();
        ghost var before := Contents();
        assert CHEAP_PREPEND < readIndex;
        var (buf, from) := (data, readIndex);
        for i := 0 to readable
          invariant buf[CHEAP_PREPEND..CHEAP_PREPEND + i] == before[..i]
          invariant forall k :: i <= k < readable ==> buf[from + k] == before[k]
          modifies buf
        {
          buf[CHEAP_PREPEND + i] := buf[from + i];
        }
        readIndex := CHEAP_PREPEND;
        writeIndex := readIndex + readable;
      }
    }

    /** `m_buffer.resize(n)` to a larger size: existing bytes stay, new ones are zero. */
    method Resize(n: nat)
      requires Valid() && n > data.Length
      modifies this`data
      ensures fresh(data) && data.Length == n && data[..old(data.Length)] == old(data[..])
    {
      var larger := new byte[n](_ => 0);
      for i := 0 to data.Length
        invariant larger[..i] == data[..i]
        modifies larger
      {
        larger[i] := data[i];
      }
      data := larger;
    }

    method Prepend(bytes: seq<byte>)
      requires Valid() && |bytes| <= PrependableBytes()
      modifies this, data
      ensures Valid() && data == old(data) && Contents() == bytes + old(Contents())
    {
      ghost var before := Contents();
      readIndex := readIndex - |bytes|;
      var (buf, at) := (data, readIndex);
      for i := 0 to |bytes|
        invariant buf[at..at + i] == bytes[..i]
        invariant buf[at + |bytes|..writeIndex] == before
        modifies buf
      {
        buf[at + i] := bytes[i];
      }
      assert Contents() == buf[at..at + |bytes|] + buf[at + |bytes|..writeIndex];
    }

    /** Same bytes in a fresh vector. */
    method Shrink(reserve: nat)
      requires Valid()
      modifies this
      ensures Valid() && fresh(data) && Contents() == old(Contents())
    {
      var other := new Buffer();
      other.EnsureWritableBytes(ReadableBytes() + reserve);
      other.Append(data[readIndex..writeIndex]);
      assert other.Contents() == Contents();
      Swap(other);
    }

    method Swap(rhs: Buffer)
      requires Valid() && rhs.Valid()
      modifies this, rhs
      ensures Valid() && rhs.Valid()
      ensures data == old(rhs.data) && readIndex == old(rhs.readIndex) && writeIndex == old(rhs.writeIndex)
      ensures rhs.data == old(data) && rhs.readIndex == old(readIndex) && rhs.writeIndex == old(writeIndex)
      ensures Contents() == old(rhs.Contents()) && rhs.Contents() == old(Contents())
    {
      data, rhs.data := rhs.data, data;
      readIndex, rhs.readIndex := rhs.readIndex, readIndex;
      writeIndex, rhs.writeIndex := rhs.writeIndex, writeIndex;
    }
  }
}
