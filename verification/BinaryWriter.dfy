/** IMProtocol/BinaryWriter.h. A thrown exception is the result `ok == false`. */
module BinaryWriter {
  import opened Bytes
  import opened ByteOrder
  import opened Codec

  class BinaryWriter {
    const little: bool
    var buffer: seq<byte>

    constructor (little: bool)
      ensures buffer == [] && this.little == little
    {
      this.little := little;
      buffer := [];
    }

    function Fits(extra: nat): bool
      reads this
    {
      |buffer| + extra <= MAX_BUFFER_SIZE
    }

    method WriteUInt8(value: byte) returns (ok: bool)
      modifies this
      ensures ok == old(Fits(1))
      ensures buffer == if ok then old(buffer) + Encode(U8(value)) else old(buffer)
    {
      ok := Fits(1);
      if ok { buffer := buffer + [value]; }
    }

    method WriteUInt16(value: uint16) returns (ok: bool)
      modifies this
      ensures ok == old(Fits(2))
      ensures buffer == if ok then old(buffer) + Encode(U16(value)) else old(buffer)
    {
      ok := Fits(2);
      if ok {
        var net := Convert16(little, value);
        StoresNetworkOrder(little, value, 0, 0);
        buffer := buffer + ToMemory(little, net, 2);
      }
    }

    method WriteUInt32(value: uint32) returns (ok: bool)
      modifies this
      ensures ok == old(Fits(4))
      ensures buffer == if ok then old(buffer) + Encode(U32(value)) else old(buffer)
    {
      ok := Fits(4);
      if ok {
        var net := Convert32(little, value);
        StoresNetworkOrder(little, 0, value, 0);
        buffer := buffer + ToMemory(little, net, 4);
      }
    }

    method WriteUInt64(value: uint64) returns (ok: bool)
      modifies this
      ensures ok == old(Fits(8))
      ensures buffer == if ok then old(buffer) + Encode(U64(value)) else old(buffer)
    {
      ok := Fits(8);
      if ok {
        var net := Convert64(little, value);
        StoresNetworkOrder(little, 0, 0, value);
        buffer := buffer + ToMemory(little, net, 8);
      }
    }

    /** The loop shared by the two variable-length writers. The capacity is checked byte by byte,
        so a refused write leaves the bytes that still fitted. */
    method WriteVar(value: nat) returns (ok: bool)
      requires |buffer| <= MAX_BUFFER_SIZE
      modifies this
      ensures ok == old(Fits(|VarEncode(value)|))
      ensures buffer == old(buffer) + if ok then VarEncode(value) else VarEncode(value)[..MAX_BUFFER_SIZE - old(|buffer|)]
    {
      var v, more := value, true;
      ok := true;
      ghost var done: seq<byte> := [];
      while more
        invariant |buffer| <= MAX_BUFFER_SIZE
        invariant buffer == old(buffer) + done
        invariant VarEncode(value) == if more then done + VarEncode(v) else done
        decreases if more then v + 1 else 0
      {
        var c := v % 128;
        ghost var before := v;
        v := v / 128;
        if v != 0 {
          c := c + 128;
        }
        VarStep(done, before);
        if !Fits(1) {
          ok := false;
          assert done <= VarEncode(value) && |done| == MAX_BUFFER_SIZE - |old(buffer)|;
          return;
        }
        buffer := buffer + [c];
        done := done + [c];
        more := v != 0;
      }
    }

    method WriteUInt32Var(value: uint32) returns (ok: bool)
      requires |buffer| <= MAX_BUFFER_SIZE
      modifies this
      ensures ok == old(Fits(|Encode(Var32(value))|)) && |buffer| <= MAX_BUFFER_SIZE
      ensures old(buffer) <= buffer && (ok ==> buffer == old(buffer) + Encode(Var32(value)))
    {
      ok := WriteVar(value);
    }

    method WriteUInt64Var(value: uint64) returns (ok: bool)
      requires |buffer| <= MAX_BUFFER_SIZE
      modifies this
      ensures ok == old(Fits(|Encode(Var64(value))|)) && |buffer| <= MAX_BUFFER_SIZE
      ensures old(buffer) <= buffer && (ok ==> buffer == old(buffer) + Encode(Var64(value)))
    {
      ok := WriteVar(value);
    }

    method WriteBytes(data: seq<byte>) returns (ok: bool)
      requires |buffer| <= MAX_BUFFER_SIZE
      modifies this
      ensures ok == old(Fits(|data|))
      ensures buffer == if ok then old(buffer) + data else old(buffer)
    {
      if data == [] {
        return true;
      }
      ok := Fits(|data|);
      if ok { buffer := buffer + data; }
    }

    method WriteString(text: seq<byte>) returns (ok: bool)
      requires |buffer| <= MAX_BUFFER_SIZE
      modifies this
      ensures ok == old(Fits(|Encode(Str(text))|)) && |buffer| <= MAX_BUFFER_SIZE
      ensures old(buffer) <= buffer && (ok ==> buffer == old(buffer) + Encode(Str(text)))
    {
      if |text| >= 0x1_0000_0000 {
        return false;
      }
      ok := WriteVar(|text|);
      Associates(old(buffer), VarEncode(|text|), text);
      if ok && |text| > 0 {
        ok := Fits(|text|);
        if ok { buffer := buffer + text; }
      }
    }

    method WriteStringFixed(text: seq<byte>) returns (ok: bool)
      requires |buffer| <= MAX_BUFFER_SIZE
      modifies this
      ensures ok == old(Fits(|Encode(StrFixed(text))|)) && |buffer| <= MAX_BUFFER_SIZE
      ensures old(buffer) <= buffer && (ok ==> buffer == old(buffer) + Encode(StrFixed(text)))
    {
      if |text| >= 0x1_0000_0000 {
        return false;
      }
      ok := WriteUInt32(|text|);
      Associates(old(buffer), HighFirst(|text|, 4), text);
      if ok && |text| > 0 {
        ok := Fits(|text|);
        if ok { buffer := buffer + text; }
      }
    }

    method WriteField(f: Field) returns (ok: bool)
      requires |buffer| <= MAX_BUFFER_SIZE
      modifies this
      ensures ok == old(Fits(|Encode(f)|)) && |buffer| <= MAX_BUFFER_SIZE
      ensures old(buffer) <= buffer && (ok ==> buffer == old(buffer) + Encode(f))
    {
      match f
      case U8(v) => ok := WriteUInt8(v);
      case U16(v) => ok := WriteUInt16(v);
      case U32(v) => ok := WriteUInt32(v);
      case U64(v) => ok := WriteUInt64(v);
      case Var32(v) => ok := WriteUInt32Var(v);
      case Var64(v) => ok := WriteUInt64Var(v);
      case Str(t) => ok := WriteString(t);
      case StrFixed(t) => ok := WriteStringFixed(t);
      case Blob(b) => ok := WriteBytes(b);
    }
  }

  /** One turn of the encoding loop. */
  lemma VarStep(done: seq<byte>, v: nat)
    ensures var c := v % 128 + if v / 128 != 0 then 128 else 0;
      done + VarEncode(v) == if v / 128 != 0 then (done + [c]) + VarEncode(v / 128) else done + [c]
  {}
}
