/** The simulator's realtime block: values packed by a formula of its own, and what the daemon decodes from them. */
module OutpcBuilder {
  import opened Bytes
  import opened Codec
  import opened PageBuilder
  import opened Decoder

  /** An output channel; `hasPlace` is false for bits channels without a bit range, which are computed, not stored. */
  datatype Channel = Channel(field: Field, hasPlace: bool, scale: real, translate: real)

  datatype Setting = Setting(channel: Channel, value: real)

  /** Python's `int` of a real: towards zero. */
  function Truncate(x: real): int {
    if x < 0.0 then -((-x).Floor) else x.Floor
  }

  function BlockRaw(t: DataType, scale: real, translate: real, value: real): (r: int)
    ensures Codec.Fits(t, r)
  {
    Clamp(t, Truncate(if scale != 0.0 then (value - translate) / scale else value))
  }

  /** The value that the builder's own formula gives a raw value. */
  function Displayed(scale: real, translate: real, raw: int): real {
    raw as real * scale + translate
  }

  /** `_encode_field`: one element at the offset, if the whole field has room. */
  function EncodeField(block: seq<byte>, s: Setting): (r: seq<byte>)
    ensures |r| == |block|
  {
    var c := s.channel;
    if c.field.offset + FieldSize(c.field) > |block| || !c.hasPlace then block
    else Patch(block, c.field.offset, PackBe(c.field.dtype, BlockRaw(c.field.dtype, c.scale, c.translate, s.value)))
  }

  function Build(block: seq<byte>, settings: seq<Setting>): (r: seq<byte>)
    ensures |r| == |block|
    decreases |settings|
  {
    if settings == [] then block else Build(EncodeField(block, settings[0]), settings[1..])
  }

  method EncodeFieldInto(buffer: array<byte>, s: Setting)
    modifies buffer
    ensures buffer[..] == EncodeField(old(buffer[..]), s)
  {
    hide PackBe, BlockRaw, Patch;
    var f := s.channel.field;
    if f.offset + FieldSize(f) > buffer.Length || !s.channel.hasPlace {
      return;
    }
    FieldCovers(f);
    PackInto(buffer, f.offset, f.dtype, BlockRaw(f.dtype, s.channel.scale, s.channel.translate, s.value));
  }

  /** `build`, from the channels' values in order. */
  method BuildBlock(size: nat, settings: seq<Setting>) returns (block: seq<byte>)
    ensures block == Build(Zeros(size), settings)
  {
    hide EncodeField;
    var buffer := new byte[size](_ => 0);
    assert buffer[..] == Zeros(size);
    var i := 0;
    while i < |settings|
      invariant 0 <= i <= |settings| && buffer.Length == size
      invariant Build(Zeros(size), settings) == Build(buffer[..], settings[i..])
    {
      EncodeFieldInto(buffer, settings[i]);
      i := i + 1;
    }
    block := buffer[..];
  }

  // --- One value

  /** Towards zero: the whole number between the value and zero that is nearest to it. */
  lemma TruncatesTowardsZero(x: real)
    ensures x >= 0.0 ==> Truncate(x) as real <= x < Truncate(x) as real + 1.0 && Truncate(x) >= 0
    ensures x < 0.0 ==> Truncate(x) as real - 1.0 < x <= Truncate(x) as real && Truncate(x) <= 0
  {
  }

  /** A channel without a place, or whose field has no room, stores nothing; without a scale the value itself is
      stored. */
  lemma NothingStored(block: seq<byte>, s: Setting)
    ensures !s.channel.hasPlace || s.channel.field.offset + FieldSize(s.channel.field) > |block| ==>
      EncodeField(block, s) == block
    ensures var t := s.channel.field.dtype;
      var raw := BlockRaw(t, 0.0, s.channel.translate, s.value);
      && (Codec.Fits(t, Truncate(s.value)) ==> raw == Truncate(s.value))
      && (Truncate(s.value) < Lowest(t) ==> raw == Lowest(t)) && (Truncate(s.value) > Highest(t) ==> raw == Highest(t))
  {
    hide Truncate, PackBe, Patch;
  }

  /** A raw value's displayed value is packed as that raw value. */
  lemma DisplayedIsPacked(t: DataType, scale: real, translate: real, raw: int)
    requires scale != 0.0 && Codec.Fits(t, raw)
    ensures BlockRaw(t, scale, translate, Displayed(scale, translate, raw)) == raw
  {
    assert (Displayed(scale, translate, raw) - translate) / scale == raw as real;
  }

  /** The decoder gives it back exactly when the two formulas coincide: no translation, or scale 1. */
  lemma DisplayedSurvivesExactly(scale: real, translate: real, raw: int)
    ensures UserValue(scale, translate, raw) == Displayed(scale, translate, raw) <==> translate == 0.0 || scale == 1.0
  {
    var x := raw as real;
    assert UserValue(scale, translate, raw) == x * scale + translate * scale;
    assert translate * scale - translate == translate * (scale - 1.0);
    if translate != 0.0 && scale != 1.0 {
      NonzeroProduct(translate, scale - 1.0);
    }
  }

  lemma NonzeroProduct(a: real, b: real)
    requires a != 0.0 && b != 0.0
    ensures a * b != 0.0
  {
    assert a * b / b == a;
  }

  /** Where they coincide, a value survives exactly when it is displayed for some raw value of the type: others are
      cut off towards zero or clamped. */
  lemma SurvivesExactly(t: DataType, scale: real, translate: real, value: real)
    requires scale != 0.0 && (translate == 0.0 || scale == 1.0)
    ensures UserValue(scale, translate, BlockRaw(t, scale, translate, value)) == value <==>
      exists raw :: Codec.Fits(t, raw) && value == Displayed(scale, translate, raw)
  {
    var raw := BlockRaw(t, scale, translate, value);
    hide BlockRaw;
    DisplayedSurvivesExactly(scale, translate, raw);
    if other :| Codec.Fits(t, other) && value == Displayed(scale, translate, other) {
      DisplayedIsPacked(t, scale, translate, other);
    }
  }

  /** Any value survives exactly when it is what the decoder makes of a raw value that the difference of the two
      formulas, cut off and clamped, leaves in place. */
  lemma AnySurvivesExactly(t: DataType, scale: real, translate: real, value: real)
    requires scale != 0.0
    ensures UserValue(scale, translate, BlockRaw(t, scale, translate, value)) == value <==>
      exists raw :: Codec.Fits(t, raw) && value == UserValue(scale, translate, raw)
        && Clamp(t, Truncate(raw as real + translate - translate / scale)) == raw
  {
    hide Clamp, Truncate;
    var raw := BlockRaw(t, scale, translate, value);
    if UserValue(scale, translate, raw) == value {
      Shifted(scale, translate, value, raw);
    }
    if other :| Codec.Fits(t, other) && value == UserValue(scale, translate, other)
                && Clamp(t, Truncate(other as real + translate - translate / scale)) == other {
      Shifted(scale, translate, value, other);
    }
  }

  lemma Shifted(scale: real, translate: real, value: real, raw: int)
    requires scale != 0.0 && value == UserValue(scale, translate, raw)
    ensures (value - translate) / scale == raw as real + translate - translate / scale
  {
    var u, q := raw as real + translate, translate / scale;
    assert q * scale == translate;
    assert value - translate == (u - q) * scale;
    Quotient(u - q, scale);
  }

  lemma Quotient(x: real, scale: real)
    requires scale != 0.0
    ensures x * scale / scale == x
  {
  }

  /** A value that survives although the formulas differ. */
  lemma SurvivesByChance()
    ensures UserValue(2.0, 0.5, BlockRaw(U08, 2.0, 0.5, 1.0)) == 1.0
  {
  }

  // --- A channel in the built block

  /** The channel has room and no later one writes over it. */
  predicate Stands(settings: seq<Setting>, i: nat, size: nat)
    requires i < |settings|
  {
    var f := settings[i].channel.field;
    && settings[i].channel.hasPlace && f.offset + FieldSize(f) <= size
    && forall j :: i < j < |settings| ==> Apart(settings[j].channel.field, f)
  }

  predicate Apart(g: Field, f: Field) {
    g.offset + Size(g.dtype) <= f.offset || f.offset + Size(f.dtype) <= g.offset
  }

  lemma PatchApart(block: seq<byte>, at: nat, data: seq<byte>, lo: nat, n: nat)
    requires lo + n <= |block| && (at + |data| <= lo || lo + n <= at)
    ensures Patch(block, at, data)[lo..lo + n] == block[lo..lo + n]
  {
    var p := Patch(block, at, data)[lo..lo + n];
    var b := block[lo..lo + n];
    forall k | 0 <= k < n
      ensures p[k] == b[k]
    {
      PatchAt(block, at, data, lo + k);
    }
  }

  lemma PatchHolds(block: seq<byte>, at: nat, data: seq<byte>)
    requires at + |data| <= |block|
    ensures Patch(block, at, data)[at..at + |data|] == data
  {
  }

  lemma {:induction false} LaterKeep(block: seq<byte>, settings: seq<Setting>, f: Field)
    requires f.offset + Size(f.dtype) <= |block|
    requires forall j :: 0 <= j < |settings| ==> Apart(settings[j].channel.field, f)
    ensures var hi := f.offset + Size(f.dtype); Build(block, settings)[f.offset..hi] == block[f.offset..hi]
    decreases |settings|
  {
    if settings != [] {
      var s := settings[0];
      FieldCovers(s.channel.field);
      EncodeApart(block, s, f);
      hide EncodeField, Apart;
      LaterKeep(EncodeField(block, s), settings[1..], f);
    }
  }

  lemma EncodeApart(block: seq<byte>, s: Setting, f: Field)
    requires f.offset + Size(f.dtype) <= |block| && Apart(s.channel.field, f)
    ensures var hi := f.offset + Size(f.dtype); EncodeField(block, s)[f.offset..hi] == block[f.offset..hi]
  {
    hide Patch, PackBe, BlockRaw;
    var t := s.channel.field.dtype;
    PatchApart(block, s.channel.field.offset,
               PackBe(t, BlockRaw(t, s.channel.scale, s.channel.translate, s.value)), f.offset, Size(f.dtype));
  }

  lemma {:induction false} ChannelStands(block: seq<byte>, settings: seq<Setting>, i: nat)
    requires i < |settings| && Stands(settings, i, |block|)
    ensures var c := settings[i].channel;
      var t := c.field.dtype;
      && c.field.offset + Size(t) <= |block|
      && Build(block, settings)[c.field.offset..c.field.offset + Size(t)] ==
         PackBe(t, BlockRaw(t, c.scale, c.translate, settings[i].value))
    decreases i
  {
    var c := settings[i].channel;
    FieldCovers(c.field);
    hide PackBe, BlockRaw, FieldSize, Size, Apart, Patch;
    if i == 0 {
      assert forall j :: 0 <= j < |settings| - 1 ==> settings[1..][j] == settings[j + 1];
      var t := c.field.dtype;
      PatchHolds(block, c.field.offset, PackBe(t, BlockRaw(t, c.scale, c.translate, settings[0].value)));
      LaterKeep(EncodeField(block, settings[0]), settings[1..], c.field);
    } else {
      assert forall j :: 0 <= j < |settings| - 1 ==> settings[1..][j] == settings[j + 1];
      hide EncodeField;
      ChannelStands(EncodeField(block, settings[0]), settings[1..], i - 1);
    }
  }

  /** Over the whole path from builder to daemon: a channel given the displayed value of a raw value decodes to that
      value exactly when it has no translation or scale 1; unsigned 32-bit raw values of 2^31 or more aside. */
  lemma ChannelDecodesExactly(size: nat, settings: seq<Setting>, i: nat, raw: int, f: FieldDef)
    requires i < |settings| && Stands(settings, i, size)
    requires var c := settings[i].channel;
      && c.scale != 0.0 && Codec.Fits(c.field.dtype, raw)
      && settings[i].value == Displayed(c.scale, c.translate, raw)
      && f.ftype == Plain(c.field.dtype) && f.offset == c.field.offset
      && f.scale == c.scale && f.translate == c.translate
    requires f.ftype == Plain(U32) ==> raw < 0x8000_0000
    ensures DecodeField(Build(Zeros(size), settings), f) == settings[i].value <==> f.translate == 0.0 || f.scale == 1.0
  {
    var t := f.ftype.dtype;
    var block := Build(Zeros(size), settings);
    SizeIsPositive(t);
    hide PackBe, BlockRaw, Build, Stands, Displayed, UserValue;
    ChannelStands(Zeros(size), settings, i);
    DisplayedIsPacked(t, f.scale, f.translate, raw);
    ExtractsPacked(block, f, t, raw);
    DisplayedSurvivesExactly(f.scale, f.translate, raw);
  }

  /** The manifold temperature's scale and translation: the raw value 0 is shown as -320 and decodes to -17.776. */
  lemma TemperatureDecodesWrong()
    ensures var t, scale, translate := S16, 0.05555, -320.0;
      && BlockRaw(t, scale, translate, -320.0) == 0
      && UserValue(scale, translate, 0) == -17.776
  {
  }

  /** Without translation a value between two steps is lost too. */
  lemma BetweenStepsIsLost()
    ensures UserValue(1.0, 0.0, BlockRaw(U08, 1.0, 0.0, 2.5)) == 2.0
  {
    assert 2.5.Floor == 2;
  }
}
