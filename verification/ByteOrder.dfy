/** util/ByteOrder.h: byte swapping and host/network conversion.
    The result of `isLittleEndian()` is the parameter `little`, so every statement covers both
    kinds of host. */
module ByteOrder {
  import opened Bytes

  /** `v` with every byte but number i cleared, then moved to byte number 0. */
  function ByteAt(v: nat, i: nat): (b: byte)
  {
    if i == 0 then v % 256 else ByteAt(v / 256, i - 1)
  }

  /** `value << 8` truncated to 16 bits keeps the low byte only. */
  function Swap16(v: uint16): uint16
  {
    v / 0x100 + v % 0x100 * 0x100
  }

  function Swap32(v: uint32): uint32
  {
    ByteAt(v, 0) * 0x100_0000 + ByteAt(v, 1) * 0x1_0000 + ByteAt(v, 2) * 0x100 + ByteAt(v, 3)
  }

  function Swap64(v: uint64): uint64
  {
    ByteAt(v, 0) * 0x100_0000_0000_0000 + ByteAt(v, 1) * 0x1_0000_0000_0000
    + ByteAt(v, 2) * 0x100_0000_0000 + ByteAt(v, 3) * 0x1_0000_0000
    + ByteAt(v, 4) * 0x100_0000 + ByteAt(v, 5) * 0x1_0000
    + ByteAt(v, 6) * 0x100 + ByteAt(v, 7)
  }

  /** hostToNetwork16/32/64 and networkToHost16/32/64 share their bodies. */
  function Convert16(little: bool, v: uint16): uint16 { if little then Swap16(v) else v }
  function Convert32(little: bool, v: uint32): uint32 { if little then Swap32(v) else v }
  function Convert64(little: bool, v: uint64): uint64 { if little then Swap64(v) else v }

  /** The bytes an n-byte variable holding v occupies in memory (what `memcpy` copies out). */
  function ToMemory(little: bool, v: nat, n: nat): (bs: seq<byte>)
    ensures |bs| == n
  {
    if little then LowFirst(v, n) else HighFirst(v, n)
  }

  /** The value of a variable whose memory holds bs (what `memcpy` copies in). */
  function FromMemory(little: bool, bs: seq<byte>): (v: nat)
    ensures v < Range(|bs|)
  {
    if little then ValueLowFirst(bs) else ValueHighFirst(bs)
  }

  /** A variable's memory holds its value, the low byte first exactly on the hosts called little. */
  lemma MemoryHolds(little: bool, v: nat, n: nat)
    requires v < Range(n)
    ensures FromMemory(little, ToMemory(little, v, n)) == v
    ensures n > 0 ==> ToMemory(little, v, n)[if little then 0 else n - 1] == v % 256
  {
    if little { LowFirstValue(v, n); } else { HighFirstValue(v, n); }
  }

  lemma Ranges()
    ensures Range(1) == 0x100 && Range(2) == 0x1_0000 && Range(4) == 0x1_0000_0000
    ensures Range(8) == 0x1_0000_0000_0000_0000
  {
    assert Range(3) == 0x100_0000;
    assert Range(5) == 0x100_0000_0000;
    assert Range(6) == 0x1_0000_0000_0000;
    assert Range(7) == 0x100_0000_0000_0000;
  }

  lemma {:induction false} LowFirstAt(v: nat, n: nat, i: nat)
    requires i < n
    ensures LowFirst(v, n)[i] == ByteAt(v, i)
  {
    if i > 0 { LowFirstAt(v / 256, n - 1, i - 1); }
  }

  function Bytes4(b0: int, b1: int, b2: int, b3: int): int
  {
    b0 + 0x100 * b1 + 0x1_0000 * b2 + 0x100_0000 * b3
  }

  /** Value of four, then eight bytes, written out. */
  lemma ValueOf4(bs: seq<byte>)
    requires |bs| == 4
    ensures ValueLowFirst(bs) == Bytes4(bs[0], bs[1], bs[2], bs[3])
  {
    assert bs == [bs[0]] + ([bs[1]] + ([bs[2]] + [bs[3]]));
    assert ValueLowFirst(bs[3..]) == bs[3];
    assert ValueLowFirst(bs[2..]) == (bs[2] as int) + 0x100 * (bs[3] as int) by { assert bs[2..][1..] == bs[3..]; }
    assert ValueLowFirst(bs[1..]) == bs[1] + 0x100 * ValueLowFirst(bs[2..]) by { assert bs[1..][1..] == bs[2..]; }
  }

  lemma ValueOf8(bs: seq<byte>)
    requires |bs| == 8
    ensures ValueLowFirst(bs) ==
      Bytes4(bs[0], bs[1], bs[2], bs[3]) + 0x1_0000_0000 * Bytes4(bs[4], bs[5], bs[6], bs[7])
  {
    ValueOf4(bs[4..]);
    assert ValueLowFirst(bs[3..]) == bs[3] + 0x100 * ValueLowFirst(bs[4..]) by { assert bs[3..][1..] == bs[4..]; }
    assert ValueLowFirst(bs[2..]) == bs[2] + 0x100 * ValueLowFirst(bs[3..]) by { assert bs[2..][1..] == bs[3..]; }
    assert ValueLowFirst(bs[1..]) == bs[1] + 0x100 * ValueLowFirst(bs[2..]) by { assert bs[1..][1..] == bs[2..]; }
  }

  lemma Swap16Reverses(a: uint16)
    ensures Swap16(a) == ValueLowFirst(Reverse(LowFirst(a, 2)))
  {
    var r := Reverse(LowFirst(a, 2));
    LowFirstAt(a, 2, 0); LowFirstAt(a, 2, 1);
    assert ValueLowFirst(r) == r[0] + 256 * ValueLowFirst(r[1..]);
    assert ValueLowFirst(r[1..]) == r[1];
    assert a == 256 * (a / 256) + a % 256;
  }

  lemma Swap32Reverses(b: uint32)
    ensures Swap32(b) == ValueLowFirst(Reverse(LowFirst(b, 4)))
  {
    var r := Reverse(LowFirst(b, 4));
    forall i | 0 <= i < 4 ensures r[i] == ByteAt(b, 3 - i) { LowFirstAt(b, 4, 3 - i); }
    ValueOf4(r);
  }

  lemma Swap64Reverses(c: uint64)
    ensures Swap64(c) == ValueLowFirst(Reverse(LowFirst(c, 8)))
  {
    var r := Reverse(LowFirst(c, 8));
    forall i | 0 <= i < 8 ensures r[i] == ByteAt(c, 7 - i) { LowFirstAt(c, 8, 7 - i); }
    ValueOf8(r);
    assert ValueLowFirst(r) == Bytes4(ByteAt(c, 7), ByteAt(c, 6), ByteAt(c, 5), ByteAt(c, 4))
         + 0x1_0000_0000 * Bytes4(ByteAt(c, 3), ByteAt(c, 2), ByteAt(c, 1), ByteAt(c, 0));
  }

  /** Swapping is reversing the bytes, for each of the three widths. */
  lemma SwapReverses(a: uint16, b: uint32, c: uint64)
    ensures Swap16(a) == ValueLowFirst(Reverse(LowFirst(a, 2)))
    ensures Swap32(b) == ValueLowFirst(Reverse(LowFirst(b, 4)))
    ensures Swap64(c) == ValueLowFirst(Reverse(LowFirst(c, 8)))
  {
    Swap16Reverses(a); Swap32Reverses(b); Swap64Reverses(c);
  }

  /** What the writer stores, `memcpy` of the converted value, is the network-order encoding on
      either kind of host. */
  lemma StoresNetworkOrder(little: bool, a: uint16, b: uint32, c: uint64)
    ensures ToMemory(little, Convert16(little, a), 2) == HighFirst(a, 2)
    ensures ToMemory(little, Convert32(little, b), 4) == HighFirst(b, 4)
    ensures ToMemory(little, Convert64(little, c), 8) == HighFirst(c, 8)
  {
    SwapReverses(a, b, c);
    ReverseLowFirst(a, 2); ReverseLowFirst(b, 4); ReverseLowFirst(c, 8);
    ValueLowFirstBytes(HighFirst(a, 2));
    ValueLowFirstBytes(HighFirst(b, 4));
    ValueLowFirstBytes(HighFirst(c, 8));
  }

  /** What the reader computes from received bytes is their network-order value on either host. */
  lemma LoadsNetworkOrder(little: bool, a: seq<byte>, b: seq<byte>, c: seq<byte>)
    requires |a| == 2 && |b| == 4 && |c| == 8
    ensures FromMemory(little, a) < Range(2) == 0x1_0000 && FromMemory(little, b) < Range(4) == 0x1_0000_0000
    ensures FromMemory(little, c) < Range(8) == 0x1_0000_0000_0000_0000
    ensures Convert16(little, FromMemory(little, a)) == ValueHighFirst(a)
    ensures Convert32(little, FromMemory(little, b)) == ValueHighFirst(b)
    ensures Convert64(little, FromMemory(little, c)) == ValueHighFirst(c)
  {
    Ranges();
    SwapReverses(ValueLowFirst(a), ValueLowFirst(b), ValueLowFirst(c));
    ValueLowFirstBytes(a); ValueLowFirstBytes(b); ValueLowFirstBytes(c);
    ReverseValue(a); ReverseValue(b); ReverseValue(c);
  }

  /** Converting twice gives the value back: hostToNetwork and networkToHost are inverses. */
  lemma ConvertTwice(little: bool, a: uint16, b: uint32, c: uint64)
    ensures Convert16(little, Convert16(little, a)) == a
    ensures Convert32(little, Convert32(little, b)) == b
    ensures Convert64(little, Convert64(little, c)) == c
  {
    Ranges();
    StoresNetworkOrder(little, a, b, c);
    var (x, y, z) := (ToMemory(little, Convert16(little, a), 2),
                      ToMemory(little, Convert32(little, b), 4),
                      ToMemory(little, Convert64(little, c), 8));
    LoadsNetworkOrder(little, x, y, z);
    HighFirstValue(a, 2); HighFirstValue(b, 4); HighFirstValue(c, 8);
    HighFirstValue(Convert16(little, a), 2);
    HighFirstValue(Convert32(little, b), 4);
    HighFirstValue(Convert64(little, c), 8);
    LowFirstValue(Convert16(little, a), 2);
    LowFirstValue(Convert32(little, b), 4);
    LowFirstValue(Convert64(little, c), 8);
  }
}
