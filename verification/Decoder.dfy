/** The daemon's decoder: fields read from the OUTPC block, and the field table they are looked up in. */
module Decoder {
  import opened Bytes
  import opened Codec
  import opened PageBuilder

  /** `MS2D_TYPE_BITS` is its own type here; the other types carry their layout. */
  datatype FieldType = Plain(dtype: DataType) | BitsType

  datatype FieldDef = FieldDef(name: string, ftype: FieldType, offset: nat, scale: real, translate: real, units: string)

  /** `extract_raw_value`: 0 outside the block; everything passes through a signed 32-bit result. */
  function ExtractRaw(block: seq<byte>, f: FieldDef): int {
    match f.ftype
    case BitsType =>
      if f.offset + 4 > |block| then 0
      else Signed(FromBe32(block[f.offset..f.offset + 4]), 0x1_0000_0000)
    case Plain(t) =>
      if f.offset + Size(t) > |block| then 0
      else
        var raw := UnpackBe(t, block[f.offset..f.offset + Size(t)]);
        if t == U32 then Signed(raw, 0x1_0000_0000) else raw
  }

  /** `ms2d_decode_field`; an empty block is also what the daemon has before the first poll. */
  function DecodeField(block: seq<byte>, f: FieldDef): real {
    if block == [] then 0.0
    else
      var raw := ExtractRaw(block, f);
      if f.ftype == BitsType then raw as real else UserValue(f.scale, f.translate, raw)
  }

  datatype Value = Value(name: string, value: real, units: string)

  /** One field's entry in a reply. */
  function DecodeValue(block: seq<byte>, f: FieldDef): Value {
    Value(f.name, DecodeField(block, f), f.units)
  }

  /** The entries of `ms2d_decode_all`. */
  function DecodeValues(block: seq<byte>, fs: seq<FieldDef>): (vs: seq<Value>)
    ensures |vs| == |fs| && forall i :: 0 <= i < |fs| ==> vs[i] == DecodeValue(block, fs[i])
  {
    seq(|fs|, i requires 0 <= i < |fs| => DecodeValue(block, fs[i]))
  }

  method DecodeAll(block: seq<byte>, fields: array<FieldDef>, values: array<Value>) returns (count: nat)
    requires values.Length >= fields.Length
    modifies values
    ensures count == fields.Length
    ensures values[..count] == DecodeValues(block, fields[..])
    ensures values[count..] == old(values[count..])
  {
    count := fields.Length;
    var i := 0;
    while i < fields.Length
      invariant 0 <= i <= fields.Length
      invariant forall j :: 0 <= j < i ==> values[j] == DecodeValue(block, fields[j])
      invariant values[count..] == old(values[count..])
    {
      values[i] := DecodeValue(block, fields[i]);
      i := i + 1;
    }
  }

  /** `ms2d_find_field`: the first field of that name. */
  function Find(fs: seq<FieldDef>, name: string): (r: Option<FieldDef>)
    ensures r.Some? ==> r.value in fs && r.value.name == name
    ensures r.None? <==> forall i :: 0 <= i < |fs| ==> fs[i].name != name
  {
    if fs == [] then None
    else if fs[0].name == name then Some(fs[0])
    else Find(fs[1..], name)
  }

  method FindField(fields: array<FieldDef>, count: nat, name: string) returns (r: Option<FieldDef>)
    requires count <= fields.Length
    ensures r == Find(fields[..count], name)
  {
    var i := 0;
    while i < count
      invariant 0 <= i <= count
      invariant Find(fields[..count], name) == Find(fields[i..count], name)
    {
      assert fields[i..count][1..] == fields[i + 1..count];
      if fields[i].name == name {
        return Some(fields[i]);
      }
      i := i + 1;
    }
    r := None;
  }

  // --- Page encoder and decoder

  /** The decoder hands back the raw value that was packed, except that an unsigned 32-bit value from 2^31 up
      comes back 2^32 lower. */
  lemma ExtractsPacked(block: seq<byte>, f: FieldDef, t: DataType, raw: int)
    requires f.ftype == Plain(t) && Codec.Fits(t, raw)
    requires f.offset + Size(t) <= |block| && block[f.offset..f.offset + Size(t)] == PackBe(t, raw)
    ensures ExtractRaw(block, f) == if t == U32 && raw >= 0x8000_0000 then raw - 0x1_0000_0000 else raw
  {
    UnpackInverts(t, raw);
    hide PackBe, UnpackBe;
  }

  lemma SizeIsPositive(t: DataType)
    ensures Size(t) >= 1
  {
  }

  /** A scalar loaded into a page among other constants decodes to the value nearest the wanted one among all raw
      values of its type, exactly when its raw value stays below 2^31 or its type is not unsigned 32-bit. */
  lemma ScalarDecodes(page: seq<byte>, cs: seq<Constant>, p: seq<byte>, c: Constant, user: real, f: FieldDef)
    requires Load(page, cs) == Some(p) && Disjoint(cs, |page|) && c in cs
    requires c.field.offset + FieldSize(c.field) <= |page|
    requires f.scale != 0.0 && c.content == ScalarContent(f.scale, f.translate, Some(user))
    requires f.ftype == Plain(c.field.dtype) && f.offset == c.field.offset
    ensures var t := c.field.dtype;
      var raw := RawOf(t, f.scale, f.translate, user);
      && (DecodeField(p, f) == UserValue(f.scale, f.translate, raw) <==> t != U32 || raw < 0x8000_0000)
      && (t != U32 || raw < 0x8000_0000 ==> forall other :: Codec.Fits(t, other) ==>
            Abs(DecodeField(p, f) - user) <= Abs(UserValue(f.scale, f.translate, other) - user))
  {
    var t := c.field.dtype;
    var raw := RawOf(t, f.scale, f.translate, user);
    var w := PackBe(t, raw);
    FieldCovers(c.field);
    SizeIsPositive(t);
    assert WritesBytes(c, |page|, f.offset, w);
    assert w != [];
    hide Load, Disjoint, PackBe, RawOf, WritesBytes, FieldSize, UserValue, Abs;
    BytesReadBack(page, cs, p, c, f.offset, w);
    ExtractsPacked(p, f, t, raw);
    Distinct(f.scale, f.translate, raw, raw - 0x1_0000_0000);
    forall other | Codec.Fits(t, other)
      ensures Abs(UserValue(f.scale, f.translate, raw) - user) <= Abs(UserValue(f.scale, f.translate, other) - user)
    {
      BestApproximation(t, f.scale, f.translate, user, other);
    }
  }

  /** Different raw values decode differently. */
  lemma Distinct(scale: real, translate: real, a: int, b: int)
    requires scale != 0.0 && a != b
    ensures UserValue(scale, translate, a) != UserValue(scale, translate, b)
  {
    var d := a as real - b as real;
    assert UserValue(scale, translate, a) - UserValue(scale, translate, b) == d * scale;
  }

  /** An unsigned 32-bit field holding 2^31 decodes to -2^31. */
  lemma HighBitDecodesNegative(name: string)
    ensures DecodeField([0x80, 0, 0, 0], FieldDef(name, Plain(U32), 0, 1.0, 0.0, "")) == -2147483648.0
  {
    var f := FieldDef(name, Plain(U32), 0, 1.0, 0.0, "");
    var block: seq<byte> := [0x80, 0, 0, 0];
    assert block[0..4] == block;
    assert FromBe32(block) == 0x8000_0000;
  }

  // --- What a field decodes to, by the bytes

  /** A value of one of this many, as two's complement. */
  function TwosComplement(w: int, many: int): int {
    if w < many / 2 then w else w - many
  }

  lemma ByteDecodes(block: seq<byte>, f: FieldDef)
    requires f.offset + 1 <= |block|
    ensures f.ftype == Plain(U08) ==>
      DecodeField(block, f) == (block[f.offset] as real + f.translate) * f.scale
    ensures f.ftype == Plain(S08) ==>
      DecodeField(block, f) == (TwosComplement(block[f.offset], 256) as real + f.translate) * f.scale
  {
    var s := block[f.offset..f.offset + 1];
    assert s[0] == block[f.offset];
  }

  lemma TwoBytesDecode(block: seq<byte>, f: FieldDef)
    requires f.offset + 2 <= |block|
    ensures var w := block[f.offset] as int * 256 + block[f.offset + 1];
      && (f.ftype == Plain(U16) ==> DecodeField(block, f) == (w as real + f.translate) * f.scale)
      && (f.ftype == Plain(S16) ==>
            DecodeField(block, f) == (TwosComplement(w, 65536) as real + f.translate) * f.scale)
  {
    var s := block[f.offset..f.offset + 2];
    assert s[0] == block[f.offset] && s[1] == block[f.offset + 1];
  }

  /** Four bytes are a signed number whatever the type says; a bits field is that number, neither scaled nor shifted. */
  lemma FourBytesDecode(block: seq<byte>, f: FieldDef, w: int)
    requires var o := f.offset;
      && o + 4 <= |block|
      && w == ((block[o] as int * 256 + block[o + 1]) * 256 + block[o + 2]) * 256 + block[o + 3]
    ensures f.ftype == Plain(U32) || f.ftype == Plain(S32) ==>
      DecodeField(block, f) == (TwosComplement(w, 0x1_0000_0000) as real + f.translate) * f.scale
    ensures f.ftype == BitsType ==> DecodeField(block, f) == TwosComplement(w, 0x1_0000_0000) as real
  {
    hide *;
    DecodeOfRaw(block, f);
    FourBytesRaw(block, f, w);
  }

  lemma DecodeOfRaw(block: seq<byte>, f: FieldDef)
    requires block != []
    ensures DecodeField(block, f) ==
      if f.ftype == BitsType then ExtractRaw(block, f) as real
      else (ExtractRaw(block, f) as real + f.translate) * f.scale
  {
    hide ExtractRaw;
  }

  lemma FourBytesRaw(block: seq<byte>, f: FieldDef, w: int)
    requires var o := f.offset;
      && o + 4 <= |block|
      && w == ((block[o] as int * 256 + block[o + 1]) * 256 + block[o + 2]) * 256 + block[o + 3]
    ensures f.ftype == Plain(U32) || f.ftype == Plain(S32) || f.ftype == BitsType ==>
      ExtractRaw(block, f) == TwosComplement(w, 0x1_0000_0000)
  {
    WordAt(block, f.offset, w);
    hide FromBe32;
  }

  lemma WordAt(block: seq<byte>, o: nat, w: int)
    requires o + 4 <= |block|
    requires w == ((block[o] as int * 256 + block[o + 1]) * 256 + block[o + 2]) * 256 + block[o + 3]
    ensures FromBe32(block[o..o + 4]) == w
  {
    var s := block[o..o + 4];
    assert s[0] == block[o] && s[1] == block[o + 1] && s[2] == block[o + 2] && s[3] == block[o + 3];
  }

  /** A field that reaches past the block decodes as 0, which is still shifted and scaled; in an empty block every field
      is 0. */
  lemma BeyondDecodes(block: seq<byte>, f: FieldDef)
    ensures block == [] ==> DecodeField(block, f) == 0.0
    ensures block != [] && f.ftype == BitsType && f.offset + 4 > |block| ==> DecodeField(block, f) == 0.0
    ensures block != [] && f.ftype.Plain? && f.offset + Size(f.ftype.dtype) > |block| ==>
      DecodeField(block, f) == f.translate * f.scale
  {
  }

  /** An entry carries its field's own name and units. */
  lemma EntryIsOwn(block: seq<byte>, fs: seq<FieldDef>, i: nat)
    requires i < |fs|
    ensures var v := DecodeValues(block, fs)[i];
      v.name == fs[i].name && v.units == fs[i].units && v.value == DecodeField(block, fs[i])
  {
    hide DecodeField;
  }

  /** A lookup finds the first definition of a name, however many there are. */
  lemma {:induction false} FindsFirst(fs: seq<FieldDef>, i: nat)
    requires i < |fs| && forall j :: 0 <= j < i ==> fs[j].name != fs[i].name
    ensures Find(fs, fs[i].name) == Some(fs[i])
    decreases i
  {
    if i > 0 {
      assert forall j :: 1 <= j < |fs| ==> fs[j] == fs[1..][j - 1];
      FindsFirst(fs[1..], i - 1);
    }
  }
}
