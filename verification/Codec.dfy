/** What BinaryWriter puts on the wire and BinaryReader takes off it, as functions on byte
    sequences: big-endian integers (RFC 791, Appendix B), base-128 integers (unsigned LEB128,
    section 7.6 of DWARF Version 5), length-prefixed strings and raw bytes. */
module Codec {
  import opened Bytes
  import opened ByteOrder
  import opened Wrappers

  const MAX_BUFFER_SIZE := 10 * 1024 * 1024

  // ---------- base-128 integers ----------

  function Pow2(n: nat): (p: nat)
    ensures p >= 1
  {
    if n == 0 then 1 else 2 * Pow2(n - 1)
  }

  function Pow128(n: nat): (p: nat)
    ensures p >= 1
  {
    if n == 0 then 1 else 128 * Pow128(n - 1)
  }

  lemma {:induction false} Pow2Of7(n: nat)
    ensures Pow2(7 * n) == Pow128(n)
  {
    if n > 0 {
      Pow2Of7(n - 1);
      var k := 7 * (n - 1);
      assert Pow2(k + 7) == 2 * Pow2(k + 6) == 4 * Pow2(k + 5) == 8 * Pow2(k + 4)
          == 16 * Pow2(k + 3) == 32 * Pow2(k + 2) == 64 * Pow2(k + 1) == 128 * Pow2(k);
    }
  }

  /** Low seven bits first, the high bit of a byte set when another byte follows. */
  function VarEncode(v: nat): (bs: seq<byte>)
    ensures |bs| >= 1
  {
    if v < 128 then [v] else [v % 128 + 128] + VarEncode(v / 128)
  }

  /** High bits set exactly on all bytes but the last. */
  predicate IsVar(bs: seq<byte>)
  {
    bs != [] && bs[|bs| - 1] < 128 && forall i :: 0 <= i < |bs| - 1 ==> bs[i] >= 128
  }

  /** The base-128 sum of the low seven bits. */
  function Sum128(bs: seq<byte>): nat
  {
    if bs == [] then 0 else bs[0] % 128 + 128 * Sum128(bs[1..])
  }

  /** Number of bytes up to and including the first one without a high bit, if that is among the
      first `limit` bytes. */
  function VarLength(bs: seq<byte>, limit: nat): (k: Option<nat>)
    ensures k.Some? ==> 1 <= k.value <= limit && k.value <= |bs| && IsVar(bs[..k.value])
  {
    if limit == 0 || bs == [] then None
    else if bs[0] < 128 then Some(1)
    else
      var rest := VarLength(bs[1..], limit - 1);
      if rest.None? then None
      else
        assert bs[..rest.value + 1] == [bs[0]] + bs[1..][..rest.value];
        Some(rest.value + 1)
  }

  /** The length found is the only one there is. */
  lemma {:induction false} VarLengthExact(bs: seq<byte>, limit: nat, k: nat)
    requires 1 <= k <= limit && k <= |bs| && IsVar(bs[..k])
    ensures VarLength(bs, limit) == Some(k)
  {
    assert forall i :: 0 <= i < k ==> bs[..k][i] == bs[i];
    if k > 1 {
      assert bs[1..][..k - 1] == bs[..k][1..];
      VarLengthExact(bs[1..], limit - 1, k - 1);
    }
  }

  lemma {:induction false} VarEncodeIsVar(v: nat)
    ensures IsVar(VarEncode(v)) && Sum128(VarEncode(v)) == v
  {
    if v >= 128 {
      VarEncodeIsVar(v / 128);
      IsVarCons(v % 128 + 128, VarEncode(v / 128));
    } else {
      assert Sum128([v][1..]) == 0;
    }
  }

  lemma IsVarCons(c: byte, t: seq<byte>)
    requires t != []
    ensures IsVar([c] + t) <==> c >= 128 && IsVar(t)
    ensures Sum128([c] + t) == c % 128 + 128 * Sum128(t)
  {
    var bs := [c] + t;
    assert bs[1..] == t;
    if IsVar(bs) { assert bs[0] == c && forall i :: 0 <= i < |t| ==> t[i] == bs[i + 1]; }
  }

  /** The encoder's length is the least k with v < 128^k. */
  lemma {:induction false} VarEncodeLength(v: nat, k: nat)
    requires k >= 1
    ensures |VarEncode(v)| <= k <==> v < Pow128(k)
  {
    if k == 1 {
      assert Pow128(1) == 128;
    } else if v >= 128 {
      VarEncodeLength(v / 128, k - 1);
    } else {
      assert Pow128(k - 1) >= 1;
    }
  }

  lemma {:induction false} Sum128Bound(bs: seq<byte>)
    ensures Sum128(bs) < Pow128(|bs|)
  {
    if bs != [] { Sum128Bound(bs[1..]); }
  }

  lemma {:induction false} Sum128Append(bs: seq<byte>, b: byte)
    ensures Sum128(bs + [b]) == Sum128(bs) + b % 128 * Pow128(|bs|)
  {
    if bs == [] {
      assert Sum128([b]) == b % 128 + 128 * Sum128([]);
    } else {
      assert (bs + [b])[1..] == bs[1..] + [b];
      Sum128Append(bs[1..], b);
    }
  }

  lemma SmallMod(a: nat, m: nat)
    requires a < m
    ensures a % m == a
  {}

  /** Encoding the value that was decoded, also when the sum wrapped, never takes more bytes:
      the encoder emits the shortest form. */
  lemma ReencodeNoLonger(bs: seq<byte>, modulus: nat)
    requires bs != [] && modulus > 0
    ensures |VarEncode(Sum128(bs) % modulus)| <= |bs|
  {
    Sum128Bound(bs);
    VarEncodeLength(Sum128(bs) % modulus, |bs|);
    if Sum128(bs) < modulus { SmallMod(Sum128(bs), modulus); }
  }

  /** Decoding then encoding gives the same bytes exactly for encodings without a zero last byte:
      the reader also accepts padded ones. */
  lemma {:induction false} ReencodeSameIff(bs: seq<byte>)
    requires IsVar(bs)
    ensures VarEncode(Sum128(bs)) == bs <==> |bs| == 1 || bs[|bs| - 1] != 0
    ensures Sum128(bs) == 0 ==> bs[|bs| - 1] == 0
  {
    var t := bs[1..];
    assert bs == [bs[0]] + t;
    if t == [] {
      assert Sum128(t) == 0;
    } else {
      IsVarCons(bs[0], t);
      ReencodeSameIff(t);
      var v := Sum128(bs);
      assert v % 128 == bs[0] % 128 && v / 128 == Sum128(t);
      if Sum128(t) == 0 {
        assert |VarEncode(v)| == 1;
      } else {
        EncodeCons(bs[0], Sum128(t));
        assert VarEncode(v)[1..] == VarEncode(Sum128(t));
        if |t| == 1 { assert t[1..] == []; assert Sum128(t) == t[0]; }
      }
    }
  }

  lemma EncodeCons(c: byte, q: nat)
    requires c >= 128 && q > 0
    ensures VarEncode(c % 128 + 128 * q) == [c] + VarEncode(q)
  {
    var v := c % 128 + 128 * q;
    assert v % 128 == c % 128 && v / 128 == q;
  }

  // ---------- fields ----------

  datatype Kind = KU8 | KU16 | KU32 | KU64 | KVar32 | KVar64 | KString | KStringFixed | KBytes(len: nat)

  datatype Field =
    | U8(u8: byte)
    | U16(u16: uint16)
    | U32(u32: uint32)
    | U64(u64: uint64)
    | Var32(v32: uint32)
    | Var64(v64: uint64)
    | Str(text: seq<byte>)
    | StrFixed(text: seq<byte>)
    | Blob(blob: seq<byte>)

  function KindOf(f: Field): Kind
  {
    match f
    case U8(_) => KU8
    case U16(_) => KU16
    case U32(_) => KU32
    case U64(_) => KU64
    case Var32(_) => KVar32
    case Var64(_) => KVar64
    case Str(_) => KString
    case StrFixed(_) => KStringFixed
    case Blob(b) => KBytes(|b|)
  }

  function Encode(f: Field): seq<byte>
  {
    match f
    case U8(v) => [v]
    case U16(v) => HighFirst(v, 2)
    case U32(v) => HighFirst(v, 4)
    case U64(v) => HighFirst(v, 8)
    case Var32(v) => VarEncode(v)
    case Var64(v) => VarEncode(v)
    case Str(t) => VarEncode(|t|) + t
    case StrFixed(t) => HighFirst(|t|, 4) + t
    case Blob(b) => b
  }

  function DecodeFixed(n: nat, bs: seq<byte>): (r: Option<(nat, seq<byte>)>)
    ensures r.Some? ==> r.value.0 < Range(n)
  {
    if |bs| < n then None else Some((ValueHighFirst(bs[..n]), bs[n..]))
  }

  function DecodeVar(limit: nat, modulus: nat, bs: seq<byte>): (r: Option<(nat, seq<byte>)>)
    requires modulus > 0
    ensures r.Some? ==> r.value.0 < modulus
  {
    var k := VarLength(bs, limit);
    if k.None? then None else Some((Sum128(bs[..k.value]) % modulus, bs[k.value..]))
  }

  function Take(n: nat, bs: seq<byte>): Option<(seq<byte>, seq<byte>)>
  {
    if |bs| < n then None else Some((bs[..n], bs[n..]))
  }

  /** A field read off the front of bs, and what follows it. */
  function Decode(k: Kind, bs: seq<byte>): Option<(Field, seq<byte>)>
  {
    Ranges();
    match k
    case KU8 =>
      if bs == [] then None else Some((U8(bs[0]), bs[1..]))
    case KU16 =>
      var r := DecodeFixed(2, bs);
      if r.None? then None else Some((U16(r.value.0), r.value.1))
    case KU32 =>
      var r := DecodeFixed(4, bs);
      if r.None? then None else Some((U32(r.value.0), r.value.1))
    case KU64 =>
      var r := DecodeFixed(8, bs);
      if r.None? then None else Some((U64(r.value.0), r.value.1))
    case KVar32 =>
      var r := DecodeVar(5, 0x1_0000_0000, bs);
      if r.None? then None else Some((Var32(r.value.0), r.value.1))
    case KVar64 =>
      var r := DecodeVar(10, 0x1_0000_0000_0000_0000, bs);
      if r.None? then None else Some((Var64(r.value.0), r.value.1))
    case KString =>
      var r := DecodeVar(5, 0x1_0000_0000, bs);
      if r.None? then None
      else
        var t := Take(r.value.0, r.value.1);
        if t.None? then None else Some((Str(t.value.0), t.value.1))
    case KStringFixed =>
      var r := DecodeFixed(4, bs);
      if r.None? then None
      else
        var t := Take(r.value.0, r.value.1);
        if t.None? then None else Some((StrFixed(t.value.0), t.value.1))
    case KBytes(len) =>
      var t := Take(len, bs);
      if t.None? then None else Some((Blob(t.value.0), t.value.1))
  }

  /** Whether the length prefix can hold the length of the text. */
  predicate Sized(f: Field)
  {
    (f.Str? || f.StrFixed?) ==> |f.text| < 0x1_0000_0000
  }

  lemma VarRoundTrip(v: nat, limit: nat, modulus: nat, after: seq<byte>)
    requires v < Pow128(limit) && limit >= 1 && v < modulus
    ensures DecodeVar(limit, modulus, VarEncode(v) + after) == Some((v, after))
  {
    VarEncodeIsVar(v);
    VarEncodeLength(v, limit);
    var bs := VarEncode(v) + after;
    assert bs[..|VarEncode(v)|] == VarEncode(v) && bs[|VarEncode(v)|..] == after;
    VarLengthExact(bs, limit, |VarEncode(v)|);
    SmallMod(v, modulus);
  }

  lemma FixedRoundTrip(v: nat, n: nat, after: seq<byte>)
    requires v < Range(n)
    ensures DecodeFixed(n, HighFirst(v, n) + after) == Some((v, after))
  {
    HighFirstValue(v, n);
    var bs := HighFirst(v, n) + after;
    assert bs[..n] == HighFirst(v, n) && bs[n..] == after;
  }

  lemma TakeRoundTrip(t: seq<byte>, after: seq<byte>)
    ensures Take(|t|, t + after) == Some((t, after))
  {
    assert (t + after)[..|t|] == t && (t + after)[|t|..] == after;
  }

  lemma Pow128Limits()
    ensures Pow128(5) == 0x8_0000_0000 && Pow128(10) == 0x40_0000_0000_0000_0000
  {
    assert Pow128(1) == 128 && Pow128(2) == 0x4000 && Pow128(3) == 0x20_0000 && Pow128(4) == 0x1000_0000;
    assert Pow128(6) == 0x400_0000_0000 && Pow128(7) == 0x2_0000_0000_0000 && Pow128(8) == 0x100_0000_0000_0000;
    assert Pow128(9) == 0x8000_0000_0000_0000;
  }

  lemma FixedFieldRoundTrip(f: Field, after: seq<byte>)
    requires f.U8? || f.U16? || f.U32? || f.U64?
    ensures Decode(KindOf(f), Encode(f) + after) == Some((f, after))
  {
    Ranges();
    match f
    case U8(v) =>
    case U16(v) => FixedRoundTrip(v, 2, after);
    case U32(v) => FixedRoundTrip(v, 4, after);
    case U64(v) => FixedRoundTrip(v, 8, after);
  }

  lemma VarFieldRoundTrip(f: Field, after: seq<byte>)
    requires f.Var32? || f.Var64?
    ensures Decode(KindOf(f), Encode(f) + after) == Some((f, after))
  {
    Pow128Limits();
    match f
    case Var32(v) => VarRoundTrip(v, 5, 0x1_0000_0000, after);
    case Var64(v) => VarRoundTrip(v, 10, 0x1_0000_0000_0000_0000, after);
  }

  lemma TextFieldRoundTrip(f: Field, after: seq<byte>)
    requires (f.Str? || f.StrFixed?) && Sized(f)
    ensures Decode(KindOf(f), Encode(f) + after) == Some((f, after))
  {
    var t := f.text;
    TakeRoundTrip(t, after);
    match f
    case Str(_) =>
      assert Encode(f) + after == VarEncode(|t|) + (t + after);
      Pow128Limits();
      VarRoundTrip(|t|, 5, 0x1_0000_0000, t + after);
    case StrFixed(_) =>
      assert Encode(f) + after == HighFirst(|t|, 4) + (t + after);
      Ranges();
      FixedRoundTrip(|t|, 4, t + after);
  }

  /** Reading what was written returns the value and leaves exactly what follows it. */
  lemma FieldRoundTrip(f: Field, after: seq<byte>)
    requires Sized(f)
    ensures Decode(KindOf(f), Encode(f) + after) == Some((f, after))
  {
    if f.U8? || f.U16? || f.U32? || f.U64? { FixedFieldRoundTrip(f, after); }
    else if f.Var32? || f.Var64? { VarFieldRoundTrip(f, after); }
    else if f.Blob? { TakeRoundTrip(f.blob, after); }
    else { TextFieldRoundTrip(f, after); }
  }

  // ---------- the wire forms ----------

  /** Fixed fields take one, two, four and eight bytes, and their network-order value is the field's. */
  lemma FixedForms(a: byte, b: uint16, c: uint32, d: uint64)
    ensures |Encode(U8(a))| == 1 && ValueHighFirst(Encode(U8(a))) == a
    ensures |Encode(U16(b))| == 2 && ValueHighFirst(Encode(U16(b))) == b
    ensures |Encode(U32(c))| == 4 && ValueHighFirst(Encode(U32(c))) == c
    ensures |Encode(U64(d))| == 8 && ValueHighFirst(Encode(U64(d))) == d
  {
    Ranges();
    assert ValueHighFirst([a]) == a by { assert [a][..0] == []; }
    HighFirstValue(b, 2); HighFirstValue(c, 4); HighFirstValue(d, 8);
  }

  /** Variable fields are base-128 encodings of one to five and one to ten bytes with the field's value as
      their sum, and none shorter has it. */
  lemma VarForms(f: Field)
    requires f.Var32? || f.Var64?
    ensures var (bs, v) := (Encode(f), if f.Var32? then f.v32 else f.v64);
      IsVar(bs) && Sum128(bs) == v && 1 <= |bs| <= (if f.Var32? then 5 else 10)
      && forall k :: 1 <= k < |bs| ==> v >= Pow128(k)
  {
    var v := if f.Var32? then f.v32 else f.v64;
    Pow128Limits();
    VarEncodeIsVar(v);
    VarEncodeLength(v, if f.Var32? then 5 else 10);
    forall k | 1 <= k < |Encode(f)| ensures v >= Pow128(k) { VarEncodeLength(v, k); }
  }

  /** A string is its base-128 length in one to five bytes, then the text; in the fixed form the length is a
      four-byte integer. */
  lemma StringForms(t: seq<byte>)
    requires |t| < 0x1_0000_0000
    ensures var bs := Encode(Str(t));
      var k := |bs| - |t|;
      1 <= k <= 5 && IsVar(bs[..k]) && Sum128(bs[..k]) == |t| && bs[k..] == t
    ensures var bs := Encode(StrFixed(t));
      |bs| == 4 + |t| && ValueHighFirst(bs[..4]) == |t| && bs[4..] == t
  {
    Ranges();
    Pow128Limits();
    VarEncodeIsVar(|t|);
    VarEncodeLength(|t|, 5);
    var bs := Encode(Str(t));
    assert bs[..|bs| - |t|] == VarEncode(|t|) && bs[|bs| - |t|..] == t;
    HighFirstValue(|t|, 4);
    assert Encode(StrFixed(t))[..4] == HighFirst(|t|, 4);
  }

  /** bs is an encoding of at most `limit` bytes with value v modulo the word size, then the rest. */
  ghost predicate VarThen(bs: seq<byte>, limit: nat, modulus: nat, v: nat, rest: seq<byte>)
    requires modulus > 0
  {
    exists k :: 1 <= k <= limit && k <= |bs| && IsVar(bs[..k]) && Sum128(bs[..k]) % modulus == v && bs[k..] == rest
  }

  lemma DecodeVarIff(limit: nat, modulus: nat, bs: seq<byte>, v: nat, rest: seq<byte>)
    requires modulus > 0
    ensures DecodeVar(limit, modulus, bs) == Some((v, rest)) <==> VarThen(bs, limit, modulus, v, rest)
  {
    if k :| 1 <= k <= limit && k <= |bs| && IsVar(bs[..k]) && Sum128(bs[..k]) % modulus == v && bs[k..] == rest {
      VarLengthExact(bs, limit, k);
    }
  }

  lemma DecodeFixedIff(n: nat, bs: seq<byte>, v: nat, rest: seq<byte>)
    ensures DecodeFixed(n, bs) == Some((v, rest)) <==> |bs| >= n && ValueHighFirst(bs[..n]) == v && bs[n..] == rest
  {}

  /** What the reader accepts, on all inputs, for each kind of field: exactly the bytes that begin with such a
      form, and it leaves exactly what follows. Variable-length values wrap, also as lengths of strings. */
  lemma NumberReadIff(bs: seq<byte>, f: Field, rest: seq<byte>)
    requires !f.Str? && !f.StrFixed? && !f.Blob?
    ensures Decode(KindOf(f), bs) == Some((f, rest)) <==>
      match f
      case U8(v) => bs == [v] + rest
      case U16(v) => |bs| >= 2 && ValueHighFirst(bs[..2]) == v && bs[2..] == rest
      case U32(v) => |bs| >= 4 && ValueHighFirst(bs[..4]) == v && bs[4..] == rest
      case U64(v) => |bs| >= 8 && ValueHighFirst(bs[..8]) == v && bs[8..] == rest
      case Var32(v) => VarThen(bs, 5, 0x1_0000_0000, v, rest)
      case Var64(v) => VarThen(bs, 10, 0x1_0000_0000_0000_0000, v, rest)
  {
    match f
    case U8(v) => if bs == [v] + rest { assert bs[1..] == rest; }
    case U16(v) => DecodeFixedIff(2, bs, v, rest);
    case U32(v) => DecodeFixedIff(4, bs, v, rest);
    case U64(v) => DecodeFixedIff(8, bs, v, rest);
    case Var32(v) => DecodeVarIff(5, 0x1_0000_0000, bs, v, rest);
    case Var64(v) => DecodeVarIff(10, 0x1_0000_0000_0000_0000, bs, v, rest);
  }

  lemma TextReadIff(bs: seq<byte>, t: seq<byte>, rest: seq<byte>)
    ensures Decode(KString, bs) == Some((Str(t), rest)) <==> VarThen(bs, 5, 0x1_0000_0000, |t|, t + rest)
    ensures Decode(KStringFixed, bs) == Some((StrFixed(t), rest)) <==>
      |bs| >= 4 && ValueHighFirst(bs[..4]) == |t| && bs[4..] == t + rest
    ensures Decode(KBytes(|t|), bs) == Some((Blob(t), rest)) <==> bs == t + rest
  {
    hide DecodeVar, VarThen;
    DecodeVarIff(5, 0x1_0000_0000, bs, |t|, t + rest);
    DecodeFixedIff(4, bs, |t|, t + rest);
    TakeRoundTrip(t, rest);
    TakeIs(|t|, bs, t, rest);
    var r := DecodeVar(5, 0x1_0000_0000, bs);
    if r.Some? { TakeIs(r.value.0, r.value.1, t, rest); }
    var q := DecodeFixed(4, bs);
    if q.Some? { TakeIs(q.value.0, q.value.1, t, rest); }
  }

  lemma TakeIs(n: nat, bs: seq<byte>, t: seq<byte>, rest: seq<byte>)
    ensures Take(n, bs) == Some((t, rest)) <==> n == |t| && bs == t + rest
  {
    TakeRoundTrip(t, rest);
    if |bs| >= n { assert bs == bs[..n] + bs[n..]; }
  }

  // ---------- field lists ----------

  function EncodeAll(fs: seq<Field>): seq<byte>
  {
    if fs == [] then [] else Encode(fs[0]) + EncodeAll(fs[1..])
  }

  function Schema(fs: seq<Field>): (ks: seq<Kind>)
    ensures |ks| == |fs|
  {
    if fs == [] then [] else [KindOf(fs[0])] + Schema(fs[1..])
  }

  function DecodeAll(ks: seq<Kind>, bs: seq<byte>): Option<(seq<Field>, seq<byte>)>
  {
    if ks == [] then Some(([], bs))
    else
      var first := Decode(ks[0], bs);
      if first.None? then None
      else
        var others := DecodeAll(ks[1..], first.value.1);
        if others.None? then None
        else Some(([first.value.0] + others.value.0, others.value.1))
  }

  lemma DecodeAllStep(k: Kind, ks: seq<Kind>, bs: seq<byte>, f: Field, rest: seq<byte>, fs: seq<Field>, after: seq<byte>)
    requires Decode(k, bs) == Some((f, rest)) && DecodeAll(ks, rest) == Some((fs, after))
    ensures DecodeAll([k] + ks, bs) == Some(([f] + fs, after))
  {
    assert ([k] + ks)[1..] == ks;
  }

  lemma Associates(a: seq<byte>, b: seq<byte>, c: seq<byte>)
    ensures (a + b) + c == a + (b + c)
  {}

  /** Typed field-list round trip: same schema, same values, cursor exactly at what follows. */
  lemma {:induction false} ListRoundTrip(fs: seq<Field>, after: seq<byte>)
    requires forall i :: 0 <= i < |fs| ==> Sized(fs[i])
    ensures DecodeAll(Schema(fs), EncodeAll(fs) + after) == Some((fs, after))
  {
    if fs == [] {
      assert EncodeAll(fs) + after == after;
    } else {
      var (f, t) := (fs[0], fs[1..]);
      Associates(Encode(f), EncodeAll(t), after);
      assert fs == [f] + t;
      ListRoundTrip(t, after);
      FieldRoundTrip(f, EncodeAll(t) + after);
      DecodeAllStep(KindOf(f), Schema(t), Encode(f) + (EncodeAll(t) + after), f, EncodeAll(t) + after, t, after);
    }
  }

  lemma {:induction false} EncodeAllAppend(fs: seq<Field>, f: Field)
    ensures EncodeAll(fs + [f]) == EncodeAll(fs) + Encode(f)
  {
    if fs == [] {
      assert EncodeAll([f]) == Encode(f) + EncodeAll([]);
    } else {
      assert (fs + [f])[1..] == fs[1..] + [f];
      EncodeAllAppend(fs[1..], f);
    }
  }
}
