/** IMProtocol/BinaryReader.h: a cursor over received bytes. */
module BinaryReader {
  import opened Bytes
  import opened ByteOrder
  import opened Codec
  import opened Wrappers

  class BinaryReader {
    const little: bool
    const data: seq<byte>
    var pos: nat

    constructor (little: bool, data: seq<byte>)
      ensures this.little == little && this.data == data && pos == 0
    {
      this.little := little;
      this.data := data;
      pos := 0;
    }

    predicate Valid()
      reads this
    {
      pos <= |data|
    }

    /** The bytes not read yet. */
    function Rest(): seq<byte>
      requires Valid()
      reads this
    {
      data[pos..]
    }

    method ReadUInt8() returns (ok: bool, value: byte)
      requires Valid()
      modifies this
      ensures Valid() && ok == Decode(KU8, old(Rest())).Some?
      ensures ok ==> Decode(KU8, old(Rest())) == Some((U8(value), Rest()))
      ensures !ok ==> pos == old(pos)
    {
      value := 0;
      if pos + 1 > |data| { return false, 0; }
      value := data[pos];
      pos := pos + 1;
      ok := true;
      assert old(Rest())[1..] == Rest();
    }

    /** The fixed-width loads: `memcpy` into a variable of n bytes. */
    method Load(n: nat) returns (ok: bool, net: nat, ghost bs: seq<byte>)
      requires Valid()
      modifies this
      ensures Valid() && pos >= old(pos) && ok == (|old(Rest())| >= n)
      ensures ok ==> bs == old(Rest())[..n] && Rest() == old(Rest())[n..] && net == FromMemory(little, bs)
      ensures !ok ==> pos == old(pos)
    {
      ok, net, bs := false, 0, [];
      if pos + n > |data| { return; }
      bs := data[pos..pos + n];
      assert old(Rest())[..n] == bs;
      net := FromMemory(little, data[pos..pos + n]);
      pos := pos + n;
      ok := true;
      assert old(Rest())[n..] == Rest();
    }

    method ReadUInt16() returns (ok: bool, value: uint16)
      requires Valid()
      modifies this
      ensures Valid() && ok == DecodeFixed(2, old(Rest())).Some?
      ensures ok ==> DecodeFixed(2, old(Rest())) == Some((value, Rest()))
      ensures !ok ==> pos == old(pos)
    {
      var net; ghost var bs;
      value := 0;
      ok, net, bs := Load(2);
      if ok {
        LoadsNetworkOrder(little, bs, [0, 0, 0, 0], [0, 0, 0, 0, 0, 0, 0, 0]);
        value := Convert16(little, net);
      }
    }

    method ReadUInt32() returns (ok: bool, value: uint32)
      requires Valid()
      modifies this
      ensures Valid() && pos >= old(pos) && ok == DecodeFixed(4, old(Rest())).Some?
      ensures ok ==> DecodeFixed(4, old(Rest())) == Some((value, Rest()))
      ensures !ok ==> pos == old(pos)
    {
      var net; ghost var bs;
      value := 0;
      ok, net, bs := Load(4);
      if ok {
        LoadsNetworkOrder(little, [0, 0], bs, [0, 0, 0, 0, 0, 0, 0, 0]);
        value := Convert32(little, net);
      }
    }

    method ReadUInt64() returns (ok: bool, value: uint64)
      requires Valid()
      modifies this
      ensures Valid() && ok == DecodeFixed(8, old(Rest())).Some?
      ensures ok ==> DecodeFixed(8, old(Rest())) == Some((value, Rest()))
      ensures !ok ==> pos == old(pos)
    {
      var net; ghost var bs;
      value := 0;
      ok, net, bs := Load(8);
      if ok {
        LoadsNetworkOrder(little, [0, 0], [0, 0, 0, 0], bs);
        value := Convert64(little, net);
      }
    }

    /** The loop shared by the two variable-length readers; `maxBits` is 35 or 70 and `modulus`
        2^32 or 2^64. Shifting by maxBits exceeds the width, so the byte read at that point adds
        nothing here; the source rejects right after it. A failed read may have moved the cursor. */
    method ReadVar(limit: nat, maxBits: nat, modulus: nat) returns (ok: bool, value: nat)
      requires Valid() && limit >= 1 && maxBits == 7 * limit
      requires modulus == 0x1_0000_0000 || modulus == 0x1_0000_0000_0000_0000
      modifies this
      ensures Valid() && pos >= old(pos)
      ensures ok == DecodeVar(limit, modulus, old(Rest())).Some?
      ensures ok ==> DecodeVar(limit, modulus, old(Rest())) == Some((value, Rest()))
    {
      value := 0;
      ok := false;
      var bitCount := 0;
      var c: byte;
      var more := true;
      ghost var bs := Rest();
      ghost var seen: seq<byte> := [];
      while more
        invariant Valid() && pos == old(pos) + |seen| && seen == bs[..|seen|]
        invariant bitCount == 7 * |seen| && |seen| <= limit
        invariant value == Sum128(seen) % modulus
        invariant forall i :: 0 <= i < |seen| - 1 ==> seen[i] >= 128
        invariant seen != [] ==> more == (seen[|seen| - 1] >= 128)
        invariant seen == [] ==> more
        decreases more, |data| - pos
      {
        if pos >= |data| {
          NoVar(bs, |seen|, limit);
          return false, value;
        }
        c := data[pos];
        pos := pos + 1;
        if bitCount < maxBits {
          var x := c % 128 * Pow2(bitCount) % modulus;
          Pow2Of7(|seen|);
          Accumulate(seen, c, c % 128 * Pow2(bitCount), modulus);
          value := (value + x) % modulus;
        }
        bitCount := bitCount + 7;
        if bitCount > maxBits {
          NoVar(bs, limit, limit);
          return false, value;
        }
        seen := seen + [c];
        more := c >= 128;
      }
      ok := true;
      assert bs[|seen|..] == Rest();
      VarLengthExact(bs, limit, |seen|);
    }

    method ReadUInt32Var() returns (ok: bool, value: uint32)
      requires Valid()
      modifies this
      ensures Valid() && pos >= old(pos) && ok == DecodeVar(5, 0x1_0000_0000, old(Rest())).Some?
      ensures ok ==> DecodeVar(5, 0x1_0000_0000, old(Rest())) == Some((value, Rest()))
    {
      var v;
      ok, v := ReadVar(5, 35, 0x1_0000_0000);
      value := if ok then v else 0;
    }

    method ReadUInt64Var() returns (ok: bool, value: uint64)
      requires Valid()
      modifies this
      ensures Valid() && pos >= old(pos) && ok == DecodeVar(10, 0x1_0000_0000_0000_0000, old(Rest())).Some?
      ensures ok ==> DecodeVar(10, 0x1_0000_0000_0000_0000, old(Rest())) == Some((value, Rest()))
    {
      var v;
      ok, v := ReadVar(10, 70, 0x1_0000_0000_0000_0000);
      value := if ok then v else 0;
    }

    method ReadBytes(len: nat) returns (ok: bool, bytes: seq<byte>)
      requires Valid()
      modifies this
      ensures Valid() && pos >= old(pos) && ok == Take(len, old(Rest())).Some?
      ensures ok ==> Take(len, old(Rest())) == Some((bytes, Rest()))
      ensures !ok ==> pos == old(pos)
    {
      if pos + len > |data| { return false, []; }
      bytes := data[pos..pos + len];
      assert old(Rest())[..len] == bytes;
      pos := pos + len;
      ok := true;
      assert old(Rest())[len..] == Rest();
    }

    method ReadString() returns (ok: bool, text: seq<byte>)
      requires Valid()
      modifies this
      ensures Valid() && pos >= old(pos) && ok == Decode(KString, old(Rest())).Some?
      ensures ok ==> Decode(KString, old(Rest())) == Some((Str(text), Rest()))
    {
      var len;
      ok, len := ReadUInt32Var();
      text := [];
      if ok { ok, text := ReadBytes(len); }
    }

    method ReadStringFixed() returns (ok: bool, text: seq<byte>)
      requires Valid()
      modifies this
      ensures Valid() && pos >= old(pos) && ok == Decode(KStringFixed, old(Rest())).Some?
      ensures ok ==> Decode(KStringFixed, old(Rest())) == Some((StrFixed(text), Rest()))
    {
      var len;
      ok, len := ReadUInt32();
      text := [];
      if ok { ok, text := ReadBytes(len); }
    }

    method ReadField(k: Kind) returns (ok: bool, f: Field)
      requires Valid()
      modifies this
      ensures Valid() && ok == Decode(k, old(Rest())).Some?
      ensures ok ==> Decode(k, old(Rest())) == Some((f, Rest()))
    {
      match k
      case KU8 => var v; ok, v := ReadUInt8(); f := U8(v);
      case KU16 => var v; ok, v := ReadUInt16(); f := U16(v);
      case KU32 => var v; ok, v := ReadUInt32(); f := U32(v);
      case KU64 => var v; ok, v := ReadUInt64(); f := U64(v);
      case KVar32 => var v; ok, v := ReadUInt32Var(); f := Var32(v);
      case KVar64 => var v; ok, v := ReadUInt64Var(); f := Var64(v);
      case KString => var t; ok, t := ReadString(); f := Str(t);
      case KStringFixed => var t; ok, t := ReadStringFixed(); f := StrFixed(t);
      case KBytes(len) => var b; ok, b := ReadBytes(len); f := Blob(b);
    }
  }

  lemma Remainder32(x: nat, q: nat, r: nat)
    requires x == 0x1_0000_0000 * q + r && r < 0x1_0000_0000
    ensures x % 0x1_0000_0000 == r
  {}

  lemma Remainder64(x: nat, q: nat, r: nat)
    requires x == 0x1_0000_0000_0000_0000 * q + r && r < 0x1_0000_0000_0000_0000
    ensures x % 0x1_0000_0000_0000_0000 == r
  {}

  lemma AddMod32(a: nat, b: nat)
    ensures (a % 0x1_0000_0000 + b % 0x1_0000_0000) % 0x1_0000_0000 == (a + b) % 0x1_0000_0000
  {
    var m := 0x1_0000_0000;
    var (s, q) := (a % m + b % m, a / m + b / m);
    if s < m { Remainder32(a + b, q, s); Remainder32(s, 0, s); }
    else { Remainder32(a + b, q + 1, s - m); Remainder32(s, 1, s - m); }
  }

  lemma AddMod64(a: nat, b: nat)
    ensures (a % 0x1_0000_0000_0000_0000 + b % 0x1_0000_0000_0000_0000) % 0x1_0000_0000_0000_0000
        == (a + b) % 0x1_0000_0000_0000_0000
  {
    var m := 0x1_0000_0000_0000_0000;
    var (s, q) := (a % m + b % m, a / m + b / m);
    if s < m { Remainder64(a + b, q, s); Remainder64(s, 0, s); }
    else { Remainder64(a + b, q + 1, s - m); Remainder64(s, 1, s - m); }
  }

  /** One turn of the decoding loop: adding the shifted low bits keeps the running base-128 sum,
      modulo the width. */
  lemma Accumulate(prev: seq<byte>, c: byte, x: nat, modulus: nat)
    requires modulus == 0x1_0000_0000 || modulus == 0x1_0000_0000_0000_0000
    requires x == c % 128 * Pow128(|prev|)
    ensures (Sum128(prev) % modulus + x % modulus) % modulus == Sum128(prev + [c]) % modulus
  {
    var s := Sum128(prev);
    assert Sum128(prev + [c]) == s + x by { Sum128Append(prev, c); }
    AddMod(s, x, modulus);
  }

  lemma AddMod(a: nat, b: nat, m: nat)
    requires m == 0x1_0000_0000 || m == 0x1_0000_0000_0000_0000
    ensures (a % m + b % m) % m == (a + b) % m
  {
    if m == 0x1_0000_0000 { AddMod32(a, b); } else { AddMod64(a, b); }
  }

  /** No encoding is found when the first k bytes all have high bits and they are all there is, or
      all that may be read. */
  lemma {:induction false} NoVar(bs: seq<byte>, k: nat, limit: nat)
    requires k <= |bs| && k <= limit && (k == |bs| || k == limit)
    requires forall i :: 0 <= i < k ==> bs[i] >= 128
    ensures VarLength(bs, limit) == None
  {
    if k > 0 { NoVar(bs[1..], k - 1, limit - 1); }
  }
}
