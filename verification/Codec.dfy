/** The raw values fields are stored as: their ranges, their big-endian bytes, and the way user values become raw. */
module Codec {
  import opened Bytes

  datatype DataType = U08 | S08 | U16 | S16 | U32 | S32

  function Size(t: DataType): nat {
    match t
    case U08 | S08 => 1
    case U16 | S16 => 2
    case U32 | S32 => 4
  }

  function Lowest(t: DataType): int {
    match t
    case U08 | U16 | U32 => 0
    case S08 => -128
    case S16 => -32768
    case S32 => -2147483648
  }

  function Highest(t: DataType): int {
    match t
    case U08 => 255
    case S08 => 127
    case U16 => 65535
    case S16 => 32767
    case U32 => 4294967295
    case S32 => 2147483647
  }

  predicate Fits(t: DataType, raw: int) {
    Lowest(t) <= raw <= Highest(t)
  }

  // --- Big-endian bytes, two's complement

  /** A signed value as the unsigned word that stores it. */
  function Unsigned(raw: int, modulus: int): int {
    if raw < 0 then raw + modulus else raw
  }

  /** `struct.pack_into(">" + fmt, ...)`. */
  function PackBe(t: DataType, raw: int): (s: seq<byte>)
    requires Fits(t, raw)
    ensures |s| == Size(t)
  {
    match t
    case U08 => [raw]
    case S08 => [Unsigned(raw, 0x100)]
    case U16 => Be16(raw)
    case S16 => Be16(Unsigned(raw, 0x1_0000))
    case U32 => Be32(raw)
    case S32 => Be32(Unsigned(raw, 0x1_0000_0000))
  }

  /** The unsigned value u of a word of the given modulus, read as signed. */
  function Signed(u: int, modulus: int): int {
    if 2 * u >= modulus then u - modulus else u
  }

  function UnpackBe(t: DataType, s: seq<byte>): int
    requires |s| == Size(t)
  {
    match t
    case U08 => s[0]
    case S08 => Signed(s[0], 0x100)
    case U16 => FromBe16(s)
    case S16 => Signed(FromBe16(s), 0x1_0000)
    case U32 => FromBe32(s)
    case S32 => Signed(FromBe32(s), 0x1_0000_0000)
  }

  function Reversed(s: seq<byte>): (r: seq<byte>)
    ensures |r| == |s|
  {
    seq(|s|, i requires 0 <= i < |s| => s[|s| - 1 - i])
  }

  /** `struct.unpack_from("<" + fmt, ...)`. */
  function UnpackLe(t: DataType, s: seq<byte>): int
    requires |s| == Size(t)
  {
    UnpackBe(t, Reversed(s))
  }

  lemma UnpackInverts(t: DataType, raw: int)
    requires Fits(t, raw)
    ensures UnpackBe(t, PackBe(t, raw)) == raw
  {
    hide Be16, FromBe16, Be32, FromBe32;
    match t
    case U08 =>
    case S08 =>
    case U16 => Be16RoundTrip(raw);
    case S16 => Be16RoundTrip(Unsigned(raw, 0x1_0000));
    case U32 => Be32RoundTrip(raw);
    case S32 => Be32RoundTrip(Unsigned(raw, 0x1_0000_0000));
  }

  lemma PackInverts(t: DataType, s: seq<byte>)
    requires |s| == Size(t)
    ensures Fits(t, UnpackBe(t, s)) && PackBe(t, UnpackBe(t, s)) == s
  {
    hide Be16, FromBe16, Be32, FromBe32;
    match t
    case U08 =>
    case S08 =>
    case U16 => FromBe16Inverse(s);
    case S16 => FromBe16Inverse(s);
    case U32 => FromBe32Inverse(s);
    case S32 => FromBe32Inverse(s);
  }

  // --- From a user value to a raw value

  /** Python's `round`: to the nearest integer, halves to the even one. */
  function Round(x: real): int {
    var f := x.Floor;
    var d := x - f as real;
    if d < 0.5 then f
    else if d > 0.5 then f + 1
    else if f % 2 == 0 then f else f + 1
  }

  function Clamp(t: DataType, n: int): (r: int)
    ensures Fits(t, r)
  {
    if n < Lowest(t) then Lowest(t) else if n > Highest(t) then Highest(t) else n
  }

  /** The value before rounding: the inverse of the decoding formula, or the value itself when scale is 0. */
  function Unscaled(scale: real, translate: real, value: real): real {
    if scale != 0.0 then value / scale - translate else value
  }

  function RawOf(t: DataType, scale: real, translate: real, value: real): (r: int)
    ensures Fits(t, r)
  {
    Clamp(t, Round(Unscaled(scale, translate, value)))
  }

  /** The decoding formula: `(raw + translate) * scale`. */
  function UserValue(scale: real, translate: real, raw: int): real {
    (raw as real + translate) * scale
  }

  function Abs(x: real): (r: real)
    ensures r >= 0.0
  {
    if x < 0.0 then -x else x
  }

  // --- Best approximation

  lemma RoundIsNearest(x: real, n: int)
    ensures Abs(Round(x) as real - x) <= 0.5
    ensures Abs(Round(x) as real - x) <= Abs(n as real - x)
  {
    var f := x.Floor;
    assert f as real <= x < f as real + 1.0;
    if n <= f {
      assert n as real <= f as real;
    } else {
      assert n as real >= f as real + 1.0;
    }
  }

  /** A half goes to the even neighbour. */
  lemma HalvesGoToEven(x: real)
    ensures Abs(Round(x) as real - x) <= 0.5
    ensures Abs(Round(x) as real - x) == 0.5 ==> Round(x) % 2 == 0
  {
  }

  /** Clamping keeps the nearest among the values in range. */
  lemma ClampIsNearest(t: DataType, x: real, n: int)
    requires Fits(t, n)
    ensures Abs(Clamp(t, Round(x)) as real - x) <= Abs(n as real - x)
  {
    RoundIsNearest(x, n);
    var r := Round(x);
    RoundIsNearest(x, Lowest(t));
    RoundIsNearest(x, Highest(t));
  }

  /** How far a raw value decodes from the wanted value whose unscaled form is x. */
  function Gap(x: real, scale: real, raw: real): real {
    (raw - x) * scale
  }

  lemma GapMonotone(x: real, scale: real, a: real, b: real)
    requires Abs(a - x) <= Abs(b - x)
    ensures Abs(Gap(x, scale, a)) <= Abs(Gap(x, scale, b))
  {
    var d, e := a - x, b - x;
    ScaledMonotone(d, e, scale);
    assert Gap(x, scale, a) == d * scale;
    assert Gap(x, scale, b) == e * scale;
  }

  lemma ScaledMonotone(d: real, e: real, scale: real)
    requires Abs(d) <= Abs(e)
    ensures Abs(d * scale) <= Abs(e * scale)
  {
    AbsOfProduct(d, scale);
    AbsOfProduct(e, scale);
    hide Abs;
    Monotone(Abs(d), Abs(e), Abs(scale));
  }

  lemma AbsOfProduct(a: real, b: real)
    ensures Abs(a * b) == Abs(a) * Abs(b)
  {
    var u, v := Abs(a), Abs(b);
    var m := u * v;
    Monotone(0.0, u, v);
    assert m >= 0.0 * v == 0.0;
    if a < 0.0 && b < 0.0 {
      assert a * b == (-u) * (-v) == m;
    } else if a < 0.0 {
      assert a * b == (-u) * v == -m;
    } else if b < 0.0 {
      assert a * b == u * (-v) == -m;
    } else {
      assert a * b == m;
    }
  }

  lemma Monotone(a: real, b: real, c: real)
    requires a <= b && c >= 0.0
    ensures a * c <= b * c
  {
  }

  lemma ErrorIsGap(scale: real, translate: real, value: real, raw: int)
    requires scale != 0.0
    ensures UserValue(scale, translate, raw) - value == Gap(Unscaled(scale, translate, value), scale, raw as real)
  {
    var q := value / scale;
    assert q * scale == value;
    assert (raw as real + translate) * scale - q * scale == (raw as real - (q - translate)) * scale;
  }

  /** No raw value in range decodes closer to the wanted value than the encoder's choice. */
  lemma BestApproximation(t: DataType, scale: real, translate: real, value: real, other: int)
    requires scale != 0.0 && Fits(t, other)
    ensures Abs(UserValue(scale, translate, RawOf(t, scale, translate, value)) - value)
         <= Abs(UserValue(scale, translate, other) - value)
  {
    var x := Unscaled(scale, translate, value);
    var raw := RawOf(t, scale, translate, value);
    assert raw == Clamp(t, Round(x));
    hide *;
    ErrorIsGap(scale, translate, value, raw);
    ErrorIsGap(scale, translate, value, other);
    ClampIsNearest(t, x, other);
    GapMonotone(x, scale, raw as real, other as real);
  }

  /** When the rounded value needs no clamping the error is at most half a step. */
  lemma WithinHalfStep(t: DataType, scale: real, translate: real, value: real)
    requires scale != 0.0 && Fits(t, Round(Unscaled(scale, translate, value)))
    ensures Abs(UserValue(scale, translate, RawOf(t, scale, translate, value)) - value) <= 0.5 * Abs(scale)
  {
    var x := Unscaled(scale, translate, value);
    var raw := RawOf(t, scale, translate, value);
    assert raw == Round(x);
    assert Abs(x + 0.5 - x) == 0.5;
    HalfGap(x, scale);
    hide *;
    ErrorIsGap(scale, translate, value, raw);
    RoundIsNearest(x, 0);
    GapMonotone(x, scale, raw as real, x + 0.5);
  }

  lemma HalfGap(x: real, scale: real)
    ensures Abs(Gap(x, scale, x + 0.5)) == 0.5 * Abs(scale)
  {
    assert x + 0.5 - x == 0.5;
    AbsOfProduct(0.5, scale);
  }

  /** Encoding what a raw value decodes to gives the raw value back. */
  lemma RawSurvives(t: DataType, scale: real, translate: real, raw: int)
    requires scale != 0.0 && Fits(t, raw)
    ensures RawOf(t, scale, translate, UserValue(scale, translate, raw)) == raw
  {
    var value := UserValue(scale, translate, raw);
    assert value / scale == raw as real + translate;
    assert Unscaled(scale, translate, value) == raw as real;
  }

  /** Without a scale the value itself is rounded and clamped, whatever the translation. */
  lemma UnscaledIsItself(t: DataType, translate: real, value: real)
    ensures var raw := RawOf(t, 0.0, translate, value);
      && (Fits(t, Round(value)) ==> raw == Round(value))
      && (Round(value) < Lowest(t) ==> raw == Lowest(t)) && (Round(value) > Highest(t) ==> raw == Highest(t))
  {
    hide Round;
  }
}
