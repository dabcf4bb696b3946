/** Bytes, unsigned integers of the widths the protocol uses, and their digits in base 256.
    A machine word is an `int` in its range; `v & mask`, `v << k`, `v >> k` are written as
    division, remainder and multiplication by powers of two. */
module Bytes {
  type byte = b: int | 0 <= b < 0x100
  type uint16 = v: int | 0 <= v < 0x1_0000
  type uint32 = v: int | 0 <= v < 0x1_0000_0000
  type uint64 = v: int | 0 <= v < 0x1_0000_0000_0000_0000

  /** 256 to the power n: the number of values that fit n bytes. */
  function Range(n: nat): (r: nat)
    ensures r >= 1
  {
    if n == 0 then 1 else 256 * Range(n - 1)
  }

  /** The n low-order bytes of v, least significant first. */
  function LowFirst(v: nat, n: nat): (bs: seq<byte>)
    ensures |bs| == n
  {
    if n == 0 then [] else [v % 256] + LowFirst(v / 256, n - 1)
  }

  /** The n low-order bytes of v, most significant first: network order. */
  function HighFirst(v: nat, n: nat): (bs: seq<byte>)
    ensures |bs| == n
  {
    if n == 0 then [] else HighFirst(v / 256, n - 1) + [v % 256]
  }

  function ValueLowFirst(bs: seq<byte>): (v: nat)
    ensures v < Range(|bs|)
  {
    if bs == [] then 0 else bs[0] + 256 * ValueLowFirst(bs[1..])
  }

  function ValueHighFirst(bs: seq<byte>): (v: nat)
    ensures v < Range(|bs|)
  {
    if bs == [] then 0 else 256 * ValueHighFirst(bs[..|bs| - 1]) + bs[|bs| - 1]
  }

  lemma {:induction false} HighFirstValue(v: nat, n: nat)
    requires v < Range(n)
    ensures ValueHighFirst(HighFirst(v, n)) == v
  {
    if n > 0 {
      HighFirstValue(v / 256, n - 1);
      var bs := HighFirst(v, n);
      assert bs[..|bs| - 1] == HighFirst(v / 256, n - 1);
    }
  }

  lemma {:induction false} ValueHighFirstBytes(bs: seq<byte>)
    ensures HighFirst(ValueHighFirst(bs), |bs|) == bs
  {
    if bs != [] {
      ValueHighFirstBytes(bs[..|bs| - 1]);
      var v := ValueHighFirst(bs);
      assert v / 256 == ValueHighFirst(bs[..|bs| - 1]) && v % 256 == bs[|bs| - 1];
    }
  }

  lemma {:induction false} ValueLowFirstBytes(bs: seq<byte>)
    ensures LowFirst(ValueLowFirst(bs), |bs|) == bs
  {
    if bs != [] {
      ValueLowFirstBytes(bs[1..]);
      var v := ValueLowFirst(bs);
      assert v / 256 == ValueLowFirst(bs[1..]) && v % 256 == bs[0];
    }
  }

  lemma {:induction false} LowFirstValue(v: nat, n: nat)
    requires v < Range(n)
    ensures ValueLowFirst(LowFirst(v, n)) == v
  {
    if n > 0 {
      LowFirstValue(v / 256, n - 1);
      assert LowFirst(v, n)[1..] == LowFirst(v / 256, n - 1);
    }
  }

  function Reverse(bs: seq<byte>): (r: seq<byte>)
    ensures |r| == |bs|
    ensures forall i :: 0 <= i < |bs| ==> r[i] == bs[|bs| - 1 - i]
  {
    if bs == [] then [] else Reverse(bs[1..]) + [bs[0]]
  }

  lemma {:induction false} ReverseLowFirst(v: nat, n: nat)
    ensures Reverse(LowFirst(v, n)) == HighFirst(v, n)
  {
    if n > 0 {
      ReverseLowFirst(v / 256, n - 1);
      assert LowFirst(v, n)[1..] == LowFirst(v / 256, n - 1);
    }
  }

  lemma {:induction false} ReverseValue(bs: seq<byte>)
    ensures ValueLowFirst(Reverse(bs)) == ValueHighFirst(bs)
  {
    ValueHighFirstBytes(bs);
    ReverseLowFirst(ValueHighFirst(bs), |bs|);
    LowFirstValue(ValueHighFirst(bs), |bs|);
    assert Reverse(bs) == LowFirst(ValueHighFirst(bs), |bs|);
  }

  /** The first byte of a network-order value weighs most, the first of the other order least. */
  lemma {:induction false} FirstWeighsMost(b: byte, bs: seq<byte>)
    ensures ValueHighFirst([b] + bs) == b * Range(|bs|) + ValueHighFirst(bs)
    ensures ValueLowFirst([b] + bs) == b + 256 * ValueLowFirst(bs)
  {
    var all := [b] + bs;
    assert all[1..] == bs;
    if bs == [] {
      assert all[..0] == [];
    } else {
      var m := |bs| - 1;
      assert all[..m + 1] == [b] + bs[..m];
      FirstWeighsMost(b, bs[..m]);
      Shifted(b, Range(m), ValueHighFirst(bs[..m]), bs[m]);
    }
  }

  lemma Shifted(b: nat, r: nat, x: nat, y: nat)
    ensures 256 * (b * r + x) + y == b * (256 * r) + (256 * x + y)
  {}
}
