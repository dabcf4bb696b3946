/** A list of typed fields through BinaryWriter on one host and BinaryReader on another. */
module FieldTransfer {
  import opened Bytes
  import opened Codec
  import opened Wrappers
  import W = BinaryWriter
  import R = BinaryReader

  lemma {:induction false} EncodeAllPrefix(fs: seq<Field>, i: nat)
    requires i <= |fs|
    ensures |EncodeAll(fs[..i])| <= |EncodeAll(fs)|
    decreases |fs| - i
  {
    if i < |fs| {
      EncodeAllPrefix(fs, i + 1);
      assert fs[..i + 1] == fs[..i] + [fs[i]];
      EncodeAllAppend(fs[..i], fs[i]);
    } else {
      assert fs[..i] == fs;
    }
  }

  lemma TextFits(f: Field, room: nat)
    requires |Encode(f)| <= room <= MAX_BUFFER_SIZE
    ensures Sized(f)
  {}

  /** Writes all fields; fails exactly when they do not fit the cap. */
  method WriteAll(w: W.BinaryWriter, fs: seq<Field>) returns (ok: bool)
    requires w.buffer == []
    modifies w
    ensures ok <==> |EncodeAll(fs)| <= MAX_BUFFER_SIZE
    ensures ok ==> w.buffer == EncodeAll(fs) && forall i :: 0 <= i < |fs| ==> Sized(fs[i])
  {
    ok := true;
    for i := 0 to |fs|
      invariant w.buffer == EncodeAll(fs[..i]) && |w.buffer| <= MAX_BUFFER_SIZE
      invariant forall j :: 0 <= j < i ==> Sized(fs[j])
    {
      assert fs[..i + 1] == fs[..i] + [fs[i]];
      EncodeAllAppend(fs[..i], fs[i]);
      ok := w.WriteField(fs[i]);
      if !ok {
        EncodeAllPrefix(fs, i + 1);
        return;
      }
      TextFits(fs[i], MAX_BUFFER_SIZE);
    }
    assert fs[..|fs|] == fs;
  }

  /** Reads fields by the given kinds, in order. */
  method ReadAll(r: R.BinaryReader, ks: seq<Kind>) returns (ok: bool, fs: seq<Field>)
    requires r.Valid()
    modifies r
    ensures r.Valid() && ok == DecodeAll(ks, old(r.Rest())).Some?
    ensures ok ==> DecodeAll(ks, old(r.Rest())) == Some((fs, r.Rest()))
  {
    ok, fs := true, [];
    ghost var whole := DecodeAll(ks, r.Rest());
    assert ks[0..] == ks;
    for i := 0 to |ks|
      invariant ok && r.Valid()
      invariant whole.Some? == DecodeAll(ks[i..], r.Rest()).Some?
      invariant whole.Some? ==>
        var part := DecodeAll(ks[i..], r.Rest()).value;
        whole.value.0 == fs + part.0 && whole.value.1 == part.1
    {
      var f;
      ghost var before := DecodeAll(ks[i..], r.Rest());
      assert ks[i..][1..] == ks[i + 1..];
      ok, f := r.ReadField(ks[i]);
      if !ok { return; }
      ghost var now := DecodeAll(ks[i + 1..], r.Rest());
      if whole.Some? {
        assert before.value.0 == [f] + now.value.0;
        assert fs + before.value.0 == (fs + [f]) + now.value.0;
      }
      fs := fs + [f];
    }
    assert ks[|ks|..] == [];
    assert fs + [] == fs;
  }

  /** Every list of fields within the cap arrives unchanged, with nothing left over, whatever the
      byte order of the writing and of the reading host; a list over the cap is refused. */
  method Transfer(fs: seq<Field>, writerLittle: bool, readerLittle: bool) returns (ok: bool, got: seq<Field>, left: nat)
    ensures ok <==> |EncodeAll(fs)| <= MAX_BUFFER_SIZE
    ensures ok ==> got == fs && left == 0
  {
    var w := new W.BinaryWriter(writerLittle);
    ok := WriteAll(w, fs);
    if !ok { return false, [], 0; }
    ListRoundTrip(fs, []);
    assert EncodeAll(fs) + [] == EncodeAll(fs);
    var r := new R.BinaryReader(readerLittle, w.buffer);
    assert r.Rest() == EncodeAll(fs);
    ok, got := ReadAll(r, Schema(fs));
    left := |r.data| - r.pos;
    assert |r.Rest()| == left;
  }
}
