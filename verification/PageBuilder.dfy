/** Tune constants written into a configuration page, and what comes back out of it. */
module PageBuilder {
  import opened Bytes
  import opened BitOps
  import opened PythonInt
  import opened Codec

  datatype Field = Field(offset: nat, dtype: DataType, arraySize: nat)

  /** `FieldDef.size`. */
  function FieldSize(f: Field): nat {
    if f.arraySize > 0 then Size(f.dtype) * f.arraySize else Size(f.dtype)
  }

  datatype BitRange = BitRange(lo: nat, hi: nat)

  /** A constant's value once its text is read; `None` where the code gives up without writing. */
  datatype Content =
    | BitsContent(range: Option<BitRange>, value: int)
    | ScalarContent(scale: real, translate: real, user: Option<real>)
    | ArrayContent(scale: real, translate: real, values: seq<real>)

  datatype Constant = Constant(field: Field, content: Content)

  // --- Encoding

  /** `((1 << num_bits) - 1) << lo_bit`. */
  function Mask(r: BitRange): int
    requires r.lo <= r.hi + 1
  {
    Shl(Shl(1, r.hi + 1 - r.lo) - 1, r.lo)
  }

  /** The byte with the field's bits replaced; not necessarily a byte any more. */
  function MergedBits(current: byte, r: BitRange, value: int): int
    requires r.lo <= r.hi + 1
  {
    Or(And(current, Not(Mask(r))), And(Shl(value, r.lo), Mask(r)))
  }

  /** `_encode_bits`; `None` when Python raises: a negative shift count, or a value no bytearray holds. */
  function EncodeBits(page: seq<byte>, at: nat, r: BitRange, value: int): Option<seq<byte>>
    requires at < |page|
  {
    if r.lo > r.hi + 1 then None
    else
      var merged := MergedBits(page[at], r, value);
      if 0 <= merged < 256 then Some(page[at := merged]) else None
  }

  /** The loop of `_encode_array`: elements until the values or the page end. */
  function EncodeElements(page: seq<byte>, at: nat, t: DataType, scale: real, translate: real, values: seq<real>)
    : (r: seq<byte>)
    ensures |r| == |page|
    decreases |values|
  {
    if values == [] || at + Size(t) > |page| then page
    else
      var page' := Patch(page, at, PackBe(t, RawOf(t, scale, translate, values[0])));
      EncodeElements(page', at + Size(t), t, scale, translate, values[1..])
  }

  /** `_encode_constant`. */
  function Encode(page: seq<byte>, c: Constant): Option<seq<byte>> {
    var f := c.field;
    if f.offset + FieldSize(f) > |page| then Some(page)
    else
      match c.content
      case BitsContent(None, _) => Some(page)
      case BitsContent(Some(r), value) => EncodeBits(page, f.offset, r, value)
      case ScalarContent(_, _, None) => Some(page)
      case ScalarContent(scale, translate, Some(user)) =>
        Some(Patch(page, f.offset, PackBe(f.dtype, RawOf(f.dtype, scale, translate, user))))
      case ArrayContent(scale, translate, values) =>
        Some(EncodeElements(page, f.offset, f.dtype, scale, translate, values))
  }

  /** The constants of one page, one after the other. */
  function Load(page: seq<byte>, cs: seq<Constant>): Option<seq<byte>>
    decreases |cs|
  {
    if cs == [] then Some(page)
    else
      match Encode(page, cs[0])
      case None => None
      case Some(page') => Load(page', cs[1..])
  }

  /** The page when loading ends, be it at the last constant or at the first that raises. */
  function LoadedPart(page: seq<byte>, cs: seq<Constant>): seq<byte>
    decreases |cs|
  {
    if cs == [] || Encode(page, cs[0]) == None then page
    else LoadedPart(Encode(page, cs[0]).value, cs[1..])
  }

  lemma {:induction false} LoadedPartIsAll(page: seq<byte>, cs: seq<Constant>)
    ensures Load(page, cs).Some? ==> Load(page, cs).value == LoadedPart(page, cs)
    decreases |cs|
  {
    hide Encode;
    if cs != [] && Encode(page, cs[0]).Some? {
      LoadedPartIsAll(Encode(page, cs[0]).value, cs[1..]);
    }
  }

  // --- The same in place, on the page's bytearray

  method EncodeBitsInto(buffer: array<byte>, at: nat, r: BitRange, value: int) returns (ok: bool)
    requires at < buffer.Length
    modifies buffer
    ensures match EncodeBits(old(buffer[..]), at, r, value)
      case None => !ok && buffer[..] == old(buffer[..])
      case Some(page) => ok && buffer[..] == page
  {
    hide And, Or, Not, Shl;
    if r.lo > r.hi + 1 {
      return false;
    }
    var mask := Shl(Shl(1, r.hi + 1 - r.lo) - 1, r.lo);
    var current: int := buffer[at];
    current := And(current, Not(mask));
    current := Or(current, And(Shl(value, r.lo), mask));
    if current < 0 || current >= 256 {
      return false;
    }
    buffer[at] := current;
    ok := true;
  }

  /** `struct.pack_into(fmt, buffer, at, raw)`. */
  method PackInto(buffer: array<byte>, at: nat, t: DataType, raw: int)
    requires Fits(t, raw) && at + Size(t) <= buffer.Length
    modifies buffer
    ensures buffer[..] == Patch(old(buffer[..]), at, PackBe(t, raw))
  {
    var s := PackBe(t, raw);
    CopyInto(buffer, at, s);
    assert buffer[..] == buffer[..at + |s|] + buffer[at + |s|..];
  }

  method EncodeArrayInto(buffer: array<byte>, f: Field, scale: real, translate: real, values: seq<real>)
    modifies buffer
    ensures buffer[..] == EncodeElements(old(buffer[..]), f.offset, f.dtype, scale, translate, values)
  {
    hide PackBe, RawOf, Patch;
    var t := f.dtype;
    var i: nat, offset: nat := 0, f.offset;
    ghost var whole := EncodeElements(buffer[..], offset, t, scale, translate, values);
    while i < |values|
      invariant 0 <= i <= |values|
      invariant whole == EncodeElements(buffer[..], offset, t, scale, translate, values[i..])
    {
      if offset + Size(t) > buffer.Length {
        break;
      }
      PackInto(buffer, offset, t, RawOf(t, scale, translate, values[i]));
      i, offset := i + 1, offset + Size(t);
    }
  }

  method EncodeConstantInto(buffer: array<byte>, c: Constant) returns (ok: bool)
    modifies buffer
    ensures match Encode(old(buffer[..]), c)
      case None => !ok && buffer[..] == old(buffer[..])
      case Some(page) => ok && buffer[..] == page
  {
    hide EncodeBits, EncodeElements, PackBe, RawOf, Patch;
    var f := c.field;
    ok := true;
    if f.offset + FieldSize(f) > buffer.Length {
      return;
    }
    FieldCovers(f);
    match c.content {
      case BitsContent(range, value) =>
        if range.Some? {
          ok := EncodeBitsInto(buffer, f.offset, range.value, value);
        }
      case ScalarContent(scale, translate, user) =>
        if user.Some? {
          PackInto(buffer, f.offset, f.dtype, RawOf(f.dtype, scale, translate, user.value));
        }
      case ArrayContent(scale, translate, values) =>
        EncodeArrayInto(buffer, f, scale, translate, values);
    }
  }

  /** The constants of one page, in file order, until one raises; what was written before stays. */
  method LoadInto(buffer: array<byte>, cs: seq<Constant>) returns (ok: bool)
    modifies buffer
    ensures ok <==> Load(old(buffer[..]), cs).Some?
    ensures buffer[..] == LoadedPart(old(buffer[..]), cs)
  {
    hide Encode;
    ghost var whole := Load(buffer[..], cs);
    ghost var part := LoadedPart(buffer[..], cs);
    var i := 0;
    while i < |cs|
      invariant 0 <= i <= |cs|
      invariant whole == Load(buffer[..], cs[i..])
      invariant part == LoadedPart(buffer[..], cs[i..])
    {
      ok := EncodeConstantInto(buffer, cs[i]);
      if !ok {
        return;
      }
      i := i + 1;
    }
    ok := true;
  }

  // --- A constant is a masked overwrite

  function ElementBytes(t: DataType, scale: real, translate: real, values: seq<real>, room: int): (s: seq<byte>)
    ensures |s| <= Size(t) * |values|
    ensures room >= 0 ==> |s| <= room
    decreases |values|
  {
    if values == [] || Size(t) > room then []
    else
      PackBe(t, RawOf(t, scale, translate, values[0])) + ElementBytes(t, scale, translate, values[1..], room - Size(t))
  }

  /** The whole bytes a constant writes into a page of n bytes. */
  function WholeBytes(c: Constant, n: nat): seq<byte> {
    var f := c.field;
    if f.offset + FieldSize(f) > n then []
    else
      match c.content
      case BitsContent(_, _) => []
      case ScalarContent(_, _, None) => []
      case ScalarContent(scale, translate, Some(user)) => PackBe(f.dtype, RawOf(f.dtype, scale, translate, user))
      case ArrayContent(scale, translate, values) => ElementBytes(f.dtype, scale, translate, values, n - f.offset)
  }

  predicate HasBits(c: Constant, n: nat) {
    c.field.offset + FieldSize(c.field) <= n && c.content.BitsContent? && c.content.range.Some?
  }

  /** The constant determines this bit of a page of n bytes. */
  predicate Touches(c: Constant, n: nat, at: nat, k: nat) {
    if HasBits(c, n) then at == c.field.offset && c.content.range.value.lo <= k <= c.content.range.value.hi
    else c.field.offset <= at < c.field.offset + |WholeBytes(c, n)|
  }

  /** What it makes of the bit: nothing the page held matters. */
  function Target(c: Constant, n: nat, at: nat, k: nat): bool
    requires Touches(c, n, at, k)
  {
    if HasBits(c, n) then Bit(c.content.value, k - c.content.range.value.lo)
    else Bit(WholeBytes(c, n)[at - c.field.offset], k)
  }

  /** The bit range runs backwards, or the value reaches past the byte the code rewrites. */
  predicate Raises(c: Constant, n: nat) {
    HasBits(c, n) &&
    var r := c.content.range.value;
    r.lo > r.hi + 1 || Shl(Truncated(c.content.value, r.hi + 1 - r.lo), r.lo) >= 256
  }

  lemma BitOfMask2(r: BitRange, k: nat)
    requires r.lo <= r.hi + 1
    ensures Bit(Mask(r), k) == (r.lo <= k <= r.hi)
  {
    BitOfShl(Shl(1, r.hi + 1 - r.lo) - 1, r.lo, k);
    if k >= r.lo {
      BitOfMask(r.hi + 1 - r.lo, k - r.lo);
    }
  }

  lemma MergedBit(current: byte, r: BitRange, value: int, k: nat)
    requires r.lo <= r.hi + 1
    ensures Bit(MergedBits(current, r, value), k) ==
      if r.lo <= k <= r.hi then Bit(value, k - r.lo) else Bit(current, k)
  {
    var m := Mask(r);
    BitOfMask2(r, k);
    BitOfNot(m, k);
    BitOfAnd(current, Not(m), k);
    BitOfShl(value, r.lo, k);
    BitOfAnd(Shl(value, r.lo), m, k);
    BitOfOr(And(current, Not(m)), And(Shl(value, r.lo), m), k);
  }

  lemma BitOfWindow(value: int, r: BitRange, k: nat)
    requires r.lo <= r.hi + 1
    ensures Bit(Shl(Truncated(value, r.hi + 1 - r.lo), r.lo), k) == (r.lo <= k <= r.hi && Bit(value, k - r.lo))
  {
    var n := r.hi + 1 - r.lo;
    BitOfShl(Truncated(value, n), r.lo, k);
    if k >= r.lo {
      BitOfTruncated(value, n, k - r.lo);
    }
  }

  lemma {:induction false} ShlNatural(a: nat, n: nat)
    ensures Shl(a, n) >= 0
  {
    if n > 0 {
      ShlNatural(a, n - 1);
    }
  }

  /** The rewritten byte is a byte exactly when the value's window stays inside it. */
  lemma MergedIsByte(current: byte, r: BitRange, value: int)
    requires r.lo <= r.hi + 1
    ensures 0 <= MergedBits(current, r, value) < 256 <==> Shl(Truncated(value, r.hi + 1 - r.lo), r.lo) < 256
  {
    var w := Shl(Truncated(value, r.hi + 1 - r.lo), r.lo);
    var m := MergedBits(current, r, value);
    ShlNatural(Truncated(value, r.hi + 1 - r.lo), r.lo);
    Pow2Words();
    NoHighBits(w, 8);
    NoHighBits(m, 8);
    NoHighBits(current, 8);
    hide *;
    assert NoBitsFrom(m, 8) <==> NoBitsFrom(w, 8) by {
      SameHighBits(current, r, value);
    }
  }

  lemma SameHighBits(current: byte, r: BitRange, value: int)
    requires r.lo <= r.hi + 1 && NoBitsFrom(current, 8)
    ensures NoBitsFrom(MergedBits(current, r, value), 8) <==>
      NoBitsFrom(Shl(Truncated(value, r.hi + 1 - r.lo), r.lo), 8)
  {
    var w := Shl(Truncated(value, r.hi + 1 - r.lo), r.lo);
    var m := MergedBits(current, r, value);
    hide Bit, Shl, MergedBits, Pow2;
    forall k: nat | k >= 8
      ensures Bit(m, k) == Bit(w, k)
    {
      MergedBit(current, r, value, k);
      BitOfWindow(value, r, k);
      assert !Bit(current, k);
    }
  }

  lemma {:induction false} ElementsArePatch(page: seq<byte>, at: nat, t: DataType, scale: real, translate: real,
                                            values: seq<real>)
    requires at <= |page|
    ensures EncodeElements(page, at, t, scale, translate, values)
         == Patch(page, at, ElementBytes(t, scale, translate, values, |page| - at))
    decreases |values|
  {
    if values == [] || at + Size(t) > |page| {
      PatchNothing(page, at);
      hide Patch, PackBe, RawOf;
    } else {
      hide Patch, PackBe, RawOf;
      var first := PackBe(t, RawOf(t, scale, translate, values[0]));
      var rest := ElementBytes(t, scale, translate, values[1..], |page| - at - Size(t));
      ElementsArePatch(Patch(page, at, first), at + Size(t), t, scale, translate, values[1..]);
      PatchTwice(page, at, first, rest);
    }
  }

  /** Every constant that is not bits is a patch of its whole bytes. */
  lemma WholeBytesPatched(page: seq<byte>, c: Constant)
    requires !HasBits(c, |page|)
    ensures Encode(page, c) == Some(Patch(page, c.field.offset, WholeBytes(c, |page|)))
    ensures WholeBytesFit(c, |page|)
  {
    var f := c.field;
    hide PackBe, RawOf, EncodeElements, ElementBytes;
    if f.offset + FieldSize(f) > |page| || c.content.BitsContent?
       || (c.content.ScalarContent? && c.content.user.None?) {
      PatchNothing(page, f.offset);
    } else if c.content.ArrayContent? {
      ElementsArePatch(page, f.offset, f.dtype, c.content.scale, c.content.translate, c.content.values);
    } else {
      FieldCovers(f);
    }
  }

  lemma PatchNothing(page: seq<byte>, at: nat)
    ensures Patch(page, at, []) == page
  {
  }

  lemma FieldCovers(f: Field)
    ensures FieldSize(f) >= Size(f.dtype) >= 1
  {
  }

  /** After c: no page exactly when c raises; otherwise c's bits hold c's values and all others are as before. */
  ghost predicate SetsExactly(page: seq<byte>, c: Constant, after: Option<seq<byte>>) {
    && (after.None? <==> Raises(c, |page|))
    && (after.Some? ==>
          && |after.value| == |page|
          && forall at: nat, k: nat :: at < |page| && k < 8 ==>
              Bit(after.value[at], k) ==
                if Touches(c, |page|, at, k) then Target(c, |page|, at, k) else Bit(page[at], k))
  }

  /** Encoding sets exactly the constant's bits to the constant's values, whatever the page held before. */
  lemma EncodeOverwrites(page: seq<byte>, c: Constant)
    ensures SetsExactly(page, c, Encode(page, c))
  {
    if HasBits(c, |page|) {
      BitsOverwrite(page, c);
    } else {
      PatchOverwrites(page, c);
    }
  }

  lemma BitsOverwrite(page: seq<byte>, c: Constant)
    requires HasBits(c, |page|)
    ensures SetsExactly(page, c, Encode(page, c))
  {
    FieldCovers(c.field);
    var r, at := c.content.range.value, c.field.offset;
    if r.lo <= r.hi + 1 {
      MergedIsByte(page[at], r, c.content.value);
      forall k: nat
        ensures Bit(MergedBits(page[at], r, c.content.value), k) ==
          if r.lo <= k <= r.hi then Bit(c.content.value, k - r.lo) else Bit(page[at], k)
      {
        MergedBit(page[at], r, c.content.value, k);
      }
      hide MergedBits, Shl, Bit, Pow2;
    }
  }

  lemma PatchOverwrites(page: seq<byte>, c: Constant)
    requires !HasBits(c, |page|)
    ensures SetsExactly(page, c, Encode(page, c))
  {
    WholeBytesPatched(page, c);
    hide *;
    PatchSets(page, c, Patch(page, c.field.offset, WholeBytes(c, |page|)));
  }

  lemma PatchSets(page: seq<byte>, c: Constant, after: seq<byte>)
    requires !HasBits(c, |page|) && WholeBytesFit(c, |page|)
    requires after == Patch(page, c.field.offset, WholeBytes(c, |page|))
    ensures SetsExactly(page, c, Some(after))
  {
    hide Bit, WholeBytes, HasBits, Patch, Touches, Target;
    forall at: nat, k: nat | at < |page| && k < 8
      ensures Bit(after[at], k) == if Touches(c, |page|, at, k) then Target(c, |page|, at, k) else Bit(page[at], k)
    {
      PatchSetsBit(page, c, at, k);
    }
  }

  predicate WholeBytesFit(c: Constant, n: nat) {
    WholeBytes(c, n) != [] ==> c.field.offset + |WholeBytes(c, n)| <= n
  }

  lemma PatchSetsBit(page: seq<byte>, c: Constant, at: nat, k: nat)
    requires !HasBits(c, |page|) && WholeBytesFit(c, |page|) && at < |page|
    ensures Bit(Patch(page, c.field.offset, WholeBytes(c, |page|))[at], k) ==
      if Touches(c, |page|, at, k) then Target(c, |page|, at, k) else Bit(page[at], k)
  {
    hide Bit, WholeBytes, HasBits, Patch;
    PatchAt(page, c.field.offset, WholeBytes(c, |page|), at);
  }

  // --- Loading a page

  /** The bit after all constants: each one that touches it decides anew. */
  function FinalBit(cs: seq<Constant>, n: nat, at: nat, k: nat, initial: bool): bool
    decreases |cs|
  {
    if cs == [] then initial
    else FinalBit(cs[1..], n, at, k, if Touches(cs[0], n, at, k) then Target(cs[0], n, at, k) else initial)
  }

  ghost predicate NoneRaises(cs: seq<Constant>, n: nat) {
    forall c :: c in cs ==> !Raises(c, n)
  }

  /** Loading fails exactly when some constant raises; otherwise every bit is its last writer's. */
  lemma {:induction false} LoadBits(page: seq<byte>, cs: seq<Constant>)
    ensures Load(page, cs).Some? <==> NoneRaises(cs, |page|)
    ensures Load(page, cs).Some? ==> |Load(page, cs).value| == |page|
    ensures Load(page, cs).Some? ==>
      forall at: nat, k: nat :: at < |page| && k < 8 ==>
        Bit(Load(page, cs).value[at], k) == FinalBit(cs, |page|, at, k, Bit(page[at], k))
    decreases |cs|
  {
    if cs != [] {
      hide Encode, Raises, Touches, Target, Bit;
      EncodeOverwrites(page, cs[0]);
      if !Raises(cs[0], |page|) {
        LoadBits(Encode(page, cs[0]).value, cs[1..]);
      }
      assert cs == [cs[0]] + cs[1..];
    }
  }

  /** No two constants determine the same bit. */
  ghost predicate Disjoint(cs: seq<Constant>, n: nat) {
    forall i, j, at: nat, k: nat :: 0 <= i < j < |cs| && Touches(cs[i], n, at, k) ==> !Touches(cs[j], n, at, k)
  }

  /** A bit only one constant of the list determines has that constant's value. */
  lemma {:induction false} OnlyWriterDecides(cs: seq<Constant>, n: nat, at: nat, k: nat, initial: bool, c: Constant)
    requires Touches(c, n, at, k)
    requires forall d :: d in cs && Touches(d, n, at, k) ==> d == c
    requires c in cs || initial == Target(c, n, at, k)
    ensures FinalBit(cs, n, at, k, initial) == Target(c, n, at, k)
    decreases |cs|
  {
    hide Touches, Target;
    if cs != [] {
      assert cs == [cs[0]] + cs[1..];
      assert cs[0] in cs;
      assert forall d :: d in cs[1..] ==> d in cs;
      OnlyWriterDecides(cs[1..], n, at, k, if Touches(cs[0], n, at, k) then Target(cs[0], n, at, k) else initial, c);
    }
  }

  lemma {:induction false} NoWriterKeeps(cs: seq<Constant>, n: nat, at: nat, k: nat, initial: bool)
    requires forall d :: d in cs ==> !Touches(d, n, at, k)
    ensures FinalBit(cs, n, at, k, initial) == initial
    decreases |cs|
  {
    hide Touches, Target;
    if cs != [] {
      assert cs[0] in cs;
      assert forall d :: d in cs[1..] ==> d in cs;
      NoWriterKeeps(cs[1..], n, at, k, initial);
    }
  }

  ghost predicate SameElements(cs: seq<Constant>, ds: seq<Constant>) {
    forall c :: c in cs <==> c in ds
  }

  lemma WritersAgree(cs: seq<Constant>, n: nat, at: nat, k: nat, c: Constant, d: Constant)
    requires Disjoint(cs, n) && c in cs && d in cs
    requires Touches(c, n, at, k) && Touches(d, n, at, k)
    ensures c == d
  {
    hide Touches;
    var i :| 0 <= i < |cs| && cs[i] == c;
    var j :| 0 <= j < |cs| && cs[j] == d;
  }

  lemma SameFinalBit(cs: seq<Constant>, ds: seq<Constant>, n: nat, at: nat, k: nat, initial: bool)
    requires Disjoint(cs, n) && SameElements(cs, ds)
    ensures FinalBit(cs, n, at, k, initial) == FinalBit(ds, n, at, k, initial)
  {
    if c :| c in cs && Touches(c, n, at, k) {
      forall d | d in cs && Touches(d, n, at, k)
        ensures d == c
      {
        WritersAgree(cs, n, at, k, c, d);
      }
      hide Touches, Target;
      OnlyWriterDecides(cs, n, at, k, initial, c);
      OnlyWriterDecides(ds, n, at, k, initial, c);
    } else {
      hide Touches, Target;
      NoWriterKeeps(cs, n, at, k, initial);
      NoWriterKeeps(ds, n, at, k, initial);
    }
  }

  lemma SameByte(a: byte, b: byte)
    requires forall k: nat :: k < 8 ==> Bit(a, k) == Bit(b, k)
    ensures a == b
  {
    Pow2Words();
    NoHighBits(a, 8);
    NoHighBits(b, 8);
    hide Bit, Pow2;
    SameBits(a, b);
  }

  /** Constants with disjoint footprints give the same page, or raise alike, in any order and however often repeated. */
  lemma OrderIrrelevant(page: seq<byte>, cs: seq<Constant>, ds: seq<Constant>)
    requires Disjoint(cs, |page|) && SameElements(cs, ds)
    ensures Load(page, cs) == Load(page, ds)
  {
    LoadBits(page, cs);
    LoadBits(page, ds);
    hide Load, Bit, FinalBit, Raises, Disjoint;
    if Load(page, cs).Some? {
      var p, q := Load(page, cs).value, Load(page, ds).value;
      forall at: nat, k: nat | at < |page| && k < 8
        ensures Bit(p[at], k) == Bit(q[at], k)
      {
        SameFinalBit(cs, ds, |page|, at, k, Bit(page[at], k));
      }
      SamePage(p, q);
    }
  }

  lemma SamePage(p: seq<byte>, q: seq<byte>)
    requires |p| == |q|
    requires forall at: nat, k: nat :: at < |p| && k < 8 ==> Bit(p[at], k) == Bit(q[at], k)
    ensures p == q
  {
    hide Bit;
    forall at: nat | at < |p|
      ensures p[at] == q[at]
    {
      SameByte(p[at], q[at]);
    }
  }

  lemma LoadBitAt(page: seq<byte>, cs: seq<Constant>, p: seq<byte>, at: nat, k: nat)
    requires Load(page, cs) == Some(p) && at < |page| && k < 8
    ensures |p| == |page| && Bit(p[at], k) == FinalBit(cs, |page|, at, k, Bit(page[at], k))
  {
    LoadBits(page, cs);
  }

  lemma LoadKeepsLength(page: seq<byte>, cs: seq<Constant>, p: seq<byte>)
    requires Load(page, cs) == Some(p)
    ensures |p| == |page|
  {
    LoadBits(page, cs);
  }

  /** After loading, a constant's bits are its own values. */
  lemma LoadedBit(page: seq<byte>, cs: seq<Constant>, p: seq<byte>, c: Constant, at: nat, k: nat)
    requires Load(page, cs) == Some(p) && Disjoint(cs, |page|) && at < |page| && k < 8
    requires c in cs && Touches(c, |page|, at, k)
    ensures |p| == |page| && Bit(p[at], k) == Target(c, |page|, at, k)
  {
    hide *;
    LoadBitAt(page, cs, p, at, k);
    forall d | d in cs && Touches(d, |page|, at, k)
      ensures d == c
    {
      WritersAgree(cs, |page|, at, k, c, d);
    }
    OnlyWriterDecides(cs, |page|, at, k, Bit(page[at], k), c);
  }

  /** Bits no constant touches are as they were. */
  lemma UntouchedBit(page: seq<byte>, cs: seq<Constant>, p: seq<byte>, at: nat, k: nat)
    requires Load(page, cs) == Some(p) && at < |page| && k < 8
    requires forall c :: c in cs ==> !Touches(c, |page|, at, k)
    ensures |p| == |page| && Bit(p[at], k) == Bit(page[at], k)
  {
    hide *;
    LoadBitAt(page, cs, p, at, k);
    NoWriterKeeps(cs, |page|, at, k, Bit(page[at], k));
  }

  // --- Reading back

  /** The dashboard's `decode_field` on a bits field: a little-endian word, shifted and masked. */
  function DashBits(page: seq<byte>, at: nat, t: DataType, r: BitRange): int
    requires r.lo <= r.hi
  {
    if at + Size(t) > |page| then 0
    else And(Shr(UnpackLe(t, page[at..at + Size(t)]), r.lo), Shl(1, r.hi + 1 - r.lo) - 1)
  }

  lemma {:induction false} LowBits(x: int, y: int, n: nat, k: nat)
    requires k < n
    ensures Bit(x + Shl(y, n), k) == Bit(x, k)
    decreases n
  {
    if k > 0 {
      assert (x + Shl(y, n)) / 2 == x / 2 + Shl(y, n - 1);
      LowBits(x / 2, y, n - 1, k - 1);
    }
  }

  lemma {:induction false} ShlMultiplies(y: int, n: nat)
    ensures Shl(y, n) == y * Pow2(n)
    decreases n
  {
    if n > 0 {
      ShlMultiplies(y, n - 1);
    }
  }

  lemma LowByte(x: int, y: int, k: nat)
    requires k < 8
    ensures Bit(x + 256 * y, k) == Bit(x, k)
  {
    ShlMultiplies(y, 8);
    Pow2Words();
    hide Shl;
    LowBits(x, y, 8, k);
  }

  /** The low byte of a little-endian word, signed or not, is its first byte. */
  lemma FirstByteIsLow(t: DataType, s: seq<byte>) returns (y: int)
    requires |s| == Size(t)
    ensures UnpackLe(t, s) == s[0] as int + 256 * y
  {
    match t
    case U08 => y := 0;
    case S08 => y := if s[0] >= 128 then -1 else 0;
    case U16 => y := s[1];
    case S16 => y := Signed(s[1], 0x100);
    case U32 => y := (s[3] as int * 256 + s[2]) * 256 + s[1];
    case S32 => y := Signed((s[3] as int * 256 + s[2]) * 256 + s[1], 0x100_0000);
  }

  lemma WindowBit(raw: int, lo: nat, num: nat, k: nat)
    ensures Bit(And(Shr(raw, lo), Shl(1, num) - 1), k) == (k < num && Bit(raw, k + lo))
  {
    hide *;
    BitOfAnd(Shr(raw, lo), Shl(1, num) - 1, k);
    BitOfMask(num, k);
    BitOfShr(raw, lo, k);
  }

  predicate WritesBits(c: Constant, n: nat, at: nat, r: BitRange, value: int) {
    c.field.offset == at && at + FieldSize(c.field) <= n && c.content == BitsContent(Some(r), value)
  }

  lemma TouchedByBits(c: Constant, n: nat, at: nat, r: BitRange, value: int, k: nat)
    requires WritesBits(c, n, at, r, value) && r.lo <= k <= r.hi
    ensures at < n && Touches(c, n, at, k) && Target(c, n, at, k) == Bit(value, k - r.lo)
  {
    FieldCovers(c.field);
  }

  lemma DashUnfolds(p: seq<byte>, at: nat, t: DataType, r: BitRange)
    requires at + Size(t) <= |p| && r.lo <= r.hi
    ensures DashBits(p, at, t, r) == And(Shr(UnpackLe(t, p[at..at + Size(t)]), r.lo), Shl(1, r.hi + 1 - r.lo) - 1)
  {
  }

  // --- Reading bits back

  /** The word's bits of the range that are not in its first byte, which is all the encoder rewrites, are clear. */
  ghost predicate ClearBeyond(word: int, r: BitRange) {
    forall k: nat :: 8 <= k && r.lo <= k <= r.hi ==> !Bit(word, k)
  }

  /** A value that does not raise has no bits beyond the first byte. */
  lemma NothingBeyond(value: int, r: BitRange, k: nat)
    requires r.lo <= r.hi && Shl(Truncated(value, r.hi + 1 - r.lo), r.lo) < 256
    requires 8 <= k && r.lo <= k <= r.hi
    ensures !Bit(value, k - r.lo)
  {
    var w := Shl(Truncated(value, r.hi + 1 - r.lo), r.lo);
    ShlNatural(Truncated(value, r.hi + 1 - r.lo), r.lo);
    Pow2Words();
    NoHighBits(w, 8);
    hide *;
    BitOfWindow(value, r, k);
    assert NoBitsFrom(w, 8);
    NoBit(w, 8, k);
  }

  lemma NoBit(x: int, n: nat, k: nat)
    requires NoBitsFrom(x, n) && k >= n
    ensures !Bit(x, k)
  {
  }

  /** Whatever else was loaded, any bit field that could be written reads back as its value modulo 2 to its width
      exactly when the bits of its range beyond its first byte are clear in the page. */
  lemma ReadsBackExactly(page: seq<byte>, cs: seq<Constant>, p: seq<byte>, c: Constant, at: nat, r: BitRange,
                         value: int)
    requires Load(page, cs) == Some(p) && Disjoint(cs, |page|) && c in cs && WritesBits(c, |page|, at, r, value)
    requires r.lo <= r.hi
    ensures at + Size(c.field.dtype) <= |p|
    ensures DashBits(p, at, c.field.dtype, r) == Truncated(value, r.hi + 1 - r.lo) <==>
      ClearBeyond(UnpackLe(c.field.dtype, p[at..at + Size(c.field.dtype)]), r)
  {
    var t := c.field.dtype;
    FieldCovers(c.field);
    assert at + Size(t) <= |page| && Size(t) >= 1;
    hide *;
    LoadKeepsLength(page, cs, p);
    DashUnfolds(p, at, t, r);
    var s := p[at..at + Size(t)];
    var y := FirstByteIsLow(t, s);
    NothingRaises(page, cs, c, at, r, value);
    WindowExactly(page, cs, p, c, at, r, value, UnpackLe(t, s), y);
  }

  lemma NothingRaises(page: seq<byte>, cs: seq<Constant>, c: Constant, at: nat, r: BitRange, value: int)
    requires Load(page, cs).Some? && c in cs && WritesBits(c, |page|, at, r, value)
    ensures r.lo <= r.hi ==> Shl(Truncated(value, r.hi + 1 - r.lo), r.lo) < 256
  {
    LoadBits(page, cs);
    hide Load, Encode, Shl, Bit;
    assert !Raises(c, |page|);
  }

  /** One bit of the word against the same bit of the value. */
  lemma WordBit(page: seq<byte>, cs: seq<Constant>, p: seq<byte>, c: Constant, at: nat, r: BitRange, value: int,
                raw: int, y: int, k: nat)
    requires Load(page, cs) == Some(p) && Disjoint(cs, |page|) && c in cs && WritesBits(c, |page|, at, r, value)
    requires r.lo <= r.hi && at < |page| == |p| && raw == p[at] as int + 256 * y && r.lo <= k <= r.hi
    requires Shl(Truncated(value, r.hi + 1 - r.lo), r.lo) < 256
    ensures if k < 8 then Bit(raw, k) == Bit(value, k - r.lo) else !Bit(value, k - r.lo)
  {
    hide *;
    if k < 8 {
      TouchedByBits(c, |page|, at, r, value, k);
      LowByte(p[at], y, k);
      LoadedBit(page, cs, p, c, at, k);
    } else {
      NothingBeyond(value, r, k);
    }
  }

  lemma WindowExactly(page: seq<byte>, cs: seq<Constant>, p: seq<byte>, c: Constant, at: nat, r: BitRange, value: int,
                      raw: int, y: int)
    requires Load(page, cs) == Some(p) && Disjoint(cs, |page|) && c in cs && WritesBits(c, |page|, at, r, value)
    requires r.lo <= r.hi && at < |page| == |p| && raw == p[at] as int + 256 * y
    requires Shl(Truncated(value, r.hi + 1 - r.lo), r.lo) < 256
    ensures And(Shr(raw, r.lo), Shl(1, r.hi + 1 - r.lo) - 1) == Truncated(value, r.hi + 1 - r.lo) <==>
      ClearBeyond(raw, r)
  {
    hide *;
    var num := r.hi + 1 - r.lo;
    var read, wanted := And(Shr(raw, r.lo), Shl(1, num) - 1), Truncated(value, num);
    forall k: nat
      ensures Bit(read, k) == (k < num && Bit(raw, k + r.lo))
      ensures Bit(wanted, k) == (k < num && Bit(value, k))
      ensures k < num ==> if k + r.lo < 8 then Bit(raw, k + r.lo) == Bit(value, k) else !Bit(value, k)
    {
      WindowBit(raw, r.lo, num, k);
      BitOfTruncated(value, num, k);
      if k < num {
        WordBit(page, cs, p, c, at, r, value, raw, y, k + r.lo);
      }
    }
    SameExactly(read, wanted, raw, value, r);
  }

  lemma SameExactly(read: int, wanted: int, raw: int, value: int, r: BitRange)
    requires r.lo <= r.hi
    requires forall k: nat :: Bit(read, k) == (k <= r.hi - r.lo && Bit(raw, k + r.lo))
    requires forall k: nat :: Bit(wanted, k) == (k <= r.hi - r.lo && Bit(value, k))
    requires forall k: nat :: k <= r.hi - r.lo ==>
      if k + r.lo < 8 then Bit(raw, k + r.lo) == Bit(value, k) else !Bit(value, k)
    ensures read == wanted <==> ClearBeyond(raw, r)
  {
    hide Bit;
    if ClearBeyond(raw, r) {
      forall k: nat
        ensures Bit(read, k) == Bit(wanted, k)
      {
      }
      SameBits(read, wanted);
    }
    if read == wanted {
      forall k: nat | 8 <= k && r.lo <= k <= r.hi
        ensures !Bit(raw, k)
      {
        assert Bit(read, k - r.lo) == Bit(wanted, k - r.lo);
        assert k - r.lo + r.lo == k;
      }
    }
  }

  /** So a bit field inside one byte always reads back. */
  lemma BitsReadBack(page: seq<byte>, cs: seq<Constant>, p: seq<byte>, c: Constant, at: nat, r: BitRange, value: int)
    requires Load(page, cs) == Some(p) && Disjoint(cs, |page|) && c in cs && WritesBits(c, |page|, at, r, value)
    requires r.lo <= r.hi <= 7
    ensures DashBits(p, at, c.field.dtype, r) == Truncated(value, r.hi + 1 - r.lo)
  {
    hide Load, Disjoint, WritesBits, DashBits, Truncated, UnpackLe;
    ReadsBackExactly(page, cs, p, c, at, r, value);
  }

  /** On a fresh page any field reads back if no constant writes into its other bytes; a signed single byte, whose
      sign fills the bits beyond, apart. */
  lemma WideReadsBack(n: nat, cs: seq<Constant>, p: seq<byte>, c: Constant, at: nat, r: BitRange, value: int)
    requires Load(Zeros(n), cs) == Some(p) && Disjoint(cs, n) && c in cs && WritesBits(c, n, at, r, value)
    requires r.lo <= r.hi && c.field.dtype != S08
    requires forall b: nat, k: nat, d :: at < b < at + Size(c.field.dtype) && d in cs ==> !Touches(d, n, b, k)
    ensures DashBits(p, at, c.field.dtype, r) == Truncated(value, r.hi + 1 - r.lo)
  {
    var t := c.field.dtype;
    hide Load, Disjoint, WritesBits, Touches, DashBits, Truncated, Bit, UnpackLe, ClearBeyond;
    ReadsBackExactly(Zeros(n), cs, p, c, at, r, value);
    LoadKeepsLength(Zeros(n), cs, p);
    var s := p[at..at + Size(t)];
    forall b: nat | at < b < at + Size(t)
      ensures p[b] == 0
    {
      forall k: nat | k < 8
        ensures !Bit(p[b], k)
      {
        OutsideStaysZero(n, cs, p, b, k);
      }
      NoBitsIsZero(p[b]);
    }
    FirstByteAlone(t, s);
    ByteIsClear(s[0], r);
  }

  lemma NoBitsIsZero(b: byte)
    requires forall k: nat :: k < 8 ==> !Bit(b, k)
    ensures b == 0
  {
    forall k: nat | k < 8
      ensures Bit(b, k) == Bit(0, k)
    {
      BitOfMinusOne(k);
    }
    SameByte(b, 0);
  }

  lemma FirstByteAlone(t: DataType, s: seq<byte>)
    requires |s| == Size(t) && t != S08 && forall i :: 0 < i < Size(t) ==> s[i] == 0
    ensures |s| > 0 && UnpackLe(t, s) == s[0]
  {
  }

  lemma ByteIsClear(b: byte, r: BitRange)
    ensures ClearBeyond(b, r)
  {
    Pow2Words();
    NoHighBits(b, 8);
  }

  lemma NextByteBit(x: byte, y: int, k: nat)
    ensures Bit(x as int + 256 * y, k + 8) == Bit(y, k)
  {
    var w := x as int + 256 * y;
    BitOfShr(w, 8, k);
    ShrEight(w);
  }

  lemma ShrEight(w: int)
    ensures Shr(w, 8) == w / 256
  {
    assert Shr(w, 8) == Shr(w / 2 / 2 / 2 / 2, 4);
    assert Shr(w / 2 / 2 / 2 / 2, 4) == w / 2 / 2 / 2 / 2 / 2 / 2 / 2 / 2;
  }

  /** What the page holds beyond the first byte decides: next to a byte of ones, 15 in bits 4 to 11 is written and does
      not read back. */
  lemma WideMisread()
    ensures var r := BitRange(4, 11);
      var loaded := Load([0, 0xFF], [Constant(Field(0, U16, 0), BitsContent(Some(r), 15))]);
      loaded.Some? && DashBits(loaded.value, 0, U16, r) != 15
  {
    var r := BitRange(4, 11);
    var c := Constant(Field(0, U16, 0), BitsContent(Some(r), 15));
    var page: seq<byte> := [0, 0xFF];
    assert WritesBits(c, |page|, 0, r, 15);
    hide *;
    WideValueRaises(page);
    OneBitsLoad(page, c, r, 15);
    OnesMisread(page, c, r, 15, EncodeBits(page, 0, r, 15).value);
    FifteenIsItself();
  }

  lemma OnesMisread(page: seq<byte>, c: Constant, r: BitRange, value: int, p: seq<byte>)
    requires Load(page, [c]) == Some(p) && WritesBits(c, |page|, 0, r, value) && c.field.dtype == U16
    requires r.lo <= 8 <= r.hi && |page| == |p| == 2 && p[1] == 0xFF
    ensures DashBits(p, 0, U16, r) != Truncated(value, r.hi + 1 - r.lo)
  {
    hide *;
    AloneDisjoint(c, |page|);
    WordOfTwo(p);
    WholeOfTwo(p);
    ReadsBackExactly(page, [c], p, c, 0, r, value);
    OnesAreNotClear(p[0], r);
  }

  lemma AloneDisjoint(c: Constant, n: nat)
    ensures Disjoint([c], n)
  {
  }

  lemma WholeOfTwo(p: seq<byte>)
    requires |p| == 2
    ensures Size(U16) == 2 && p[0..0 + Size(U16)] == p
  {
  }

  lemma OneBitsLoad(page: seq<byte>, c: Constant, r: BitRange, value: int)
    requires WritesBits(c, |page|, 0, r, value) && |page| > 0
    ensures Load(page, [c]) == EncodeBits(page, 0, r, value)
    ensures EncodeBits(page, 0, r, value).Some? ==>
      var p := EncodeBits(page, 0, r, value).value; |p| == |page| && p[1..] == page[1..]
  {
    hide MergedBits;
    assert [c][1..] == [];
  }

  lemma FifteenIsItself()
    ensures Truncated(15, 8) == 15
  {
    Pow2Words();
  }

  lemma WordOfTwo(p: seq<byte>)
    requires |p| == 2
    ensures UnpackLe(U16, p) == p[0] as int + 256 * (p[1] as int)
  {
  }

  lemma OnesAreNotClear(x: byte, r: BitRange)
    requires r.lo <= 8 <= r.hi
    ensures !ClearBeyond(x as int + 256 * 255, r)
  {
    NextByteBit(x, 255, 0);
    assert Bit(x as int + 256 * 255, 8);
  }

  /** The constant writes these whole bytes, all inside the page. */
  predicate WritesBytes(c: Constant, n: nat, at: nat, w: seq<byte>) {
    c.field.offset == at && !HasBits(c, n) && WholeBytes(c, n) == w && at + |w| <= n
  }

  lemma WholeBit(c: Constant, n: nat, at: nat, w: seq<byte>, i: nat, k: nat)
    requires WritesBytes(c, n, at, w) && i < |w|
    ensures Touches(c, n, at + i, k) && Target(c, n, at + i, k) == Bit(w[i], k)
  {
    hide WholeBytes, Bit;
  }

  lemma LoadedWholeBit(page: seq<byte>, cs: seq<Constant>, p: seq<byte>, c: Constant, at: nat, w: seq<byte>,
                       i: nat, k: nat)
    requires Load(page, cs) == Some(p) && Disjoint(cs, |page|) && c in cs && WritesBytes(c, |page|, at, w)
    requires i < |w| && k < 8 && at + |w| <= |page| == |p|
    ensures Bit(p[at..at + |w|][i], k) == Bit(w[i], k)
  {
    hide *;
    WholeBit(c, |page|, at, w, i, k);
    LoadedBit(page, cs, p, c, at + i, k);
  }

  /** Whatever else was loaded, the bytes a scalar or array writes are there afterwards. */
  lemma BytesReadBack(page: seq<byte>, cs: seq<Constant>, p: seq<byte>, c: Constant, at: nat, w: seq<byte>)
    requires Load(page, cs) == Some(p) && Disjoint(cs, |page|) && c in cs && WritesBytes(c, |page|, at, w)
    ensures at + |w| <= |p| && p[at..at + |w|] == w
  {
    LoadKeepsLength(page, cs, p);
    assert at + |w| <= |page|;
    hide *;
    var s := p[at..at + |w|];
    forall i: nat, k: nat | i < |s| && k < 8
      ensures Bit(s[i], k) == Bit(w[i], k)
    {
      LoadedWholeBit(page, cs, p, c, at, w, i, k);
    }
    SamePage(s, w);
  }

  /** Bits outside every footprint of a page loaded from zeros are zero. */
  lemma OutsideStaysZero(n: nat, cs: seq<Constant>, p: seq<byte>, at: nat, k: nat)
    requires Load(Zeros(n), cs) == Some(p) && at < n && k < 8
    requires forall c :: c in cs ==> !Touches(c, n, at, k)
    ensures |p| == n && !Bit(p[at], k)
  {
    UntouchedBit(Zeros(n), cs, p, at, k);
    BitOfMinusOne(k);
  }

  /** Element i of an array's bytes is the encoding of value i. */
  lemma {:induction false} ElementAt(t: DataType, scale: real, translate: real, values: seq<real>, room: int, i: nat)
    requires i < |values| && Size(t) * (i + 1) <= room
    ensures var s := ElementBytes(t, scale, translate, values, room);
      Size(t) * (i + 1) <= |s| && s[Size(t) * i..Size(t) * (i + 1)] == PackBe(t, RawOf(t, scale, translate, values[i]))
    decreases i
  {
    hide PackBe, RawOf;
    var n := Size(t);
    var first := PackBe(t, RawOf(t, scale, translate, values[0]));
    var rest := ElementBytes(t, scale, translate, values[1..], room - n);
    assert n * (i + 1) == n + n * i;
    assert i >= 0 ==> n * i >= 0;
    assert ElementBytes(t, scale, translate, values, room) == first + rest;
    if i > 0 {
      assert n * i == n + n * (i - 1);
      hide ElementBytes, Size;
      ElementAt(t, scale, translate, values[1..], room - n, i - 1);
      SliceOfTail(first, rest, n * (i - 1), n * i);
    }
  }

  lemma SliceOfTail(a: seq<byte>, b: seq<byte>, lo: nat, hi: nat)
    requires lo <= hi <= |b|
    ensures (a + b)[|a| + lo..|a| + hi] == b[lo..hi]
  {
  }

  /** Whatever else was loaded, every element of an array that has room reads back as the raw value of its own value. */
  lemma ArrayReadBack(page: seq<byte>, cs: seq<Constant>, p: seq<byte>, c: Constant,
                      scale: real, translate: real, values: seq<real>, i: nat)
    requires Load(page, cs) == Some(p) && Disjoint(cs, |page|) && c in cs
    requires c.content == ArrayContent(scale, translate, values)
    requires c.field.offset + FieldSize(c.field) <= |page| && c.field.offset <= |page|
    requires i < |values| && c.field.offset + Size(c.field.dtype) * (i + 1) <= |page|
    ensures var t, at := c.field.dtype, c.field.offset;
      var n := Size(t);
      && 0 <= n * i <= n * (i + 1) && at + n * (i + 1) <= |p|
      && UnpackBe(t, p[at + n * i..at + n * (i + 1)]) == RawOf(t, scale, translate, values[i])
  {
    var t, at := c.field.dtype, c.field.offset;
    var room := |page| - at;
    hide *;
    ArrayWrites(c, |page|, scale, translate, values);
    BytesReadBack(page, cs, p, c, at, ElementBytes(t, scale, translate, values, room));
    ElementReadBack(p, at, t, scale, translate, values, room, i);
  }

  lemma ArrayWrites(c: Constant, n: nat, scale: real, translate: real, values: seq<real>)
    requires c.content == ArrayContent(scale, translate, values) && c.field.offset + FieldSize(c.field) <= n
    requires c.field.offset <= n
    ensures WritesBytes(c, n, c.field.offset, ElementBytes(c.field.dtype, scale, translate, values, n - c.field.offset))
  {
    hide PackBe, RawOf;
  }

  lemma ElementReadBack(p: seq<byte>, at: nat, t: DataType, scale: real, translate: real, values: seq<real>,
                        room: int, i: nat)
    requires i < |values| && Size(t) * (i + 1) <= room
    requires var w := ElementBytes(t, scale, translate, values, room);
      at + |w| <= |p| && p[at..at + |w|] == w
    ensures var n := Size(t);
      && 0 <= n * i <= n * (i + 1) && at + n * (i + 1) <= |p|
      && UnpackBe(t, p[at + n * i..at + n * (i + 1)]) == RawOf(t, scale, translate, values[i])
  {
    var n := Size(t);
    hide *;
    Spans(n, i);
    ElementAt(t, scale, translate, values, room, i);
    SliceOfSlice(p, at, ElementBytes(t, scale, translate, values, room), n * i, n * (i + 1));
    UnpackInverts(t, RawOf(t, scale, translate, values[i]));
  }

  lemma Spans(n: nat, i: nat)
    ensures 0 <= n * i <= n * (i + 1) == n * i + n
  {
  }

  lemma SliceOfSlice(p: seq<byte>, at: nat, w: seq<byte>, lo: int, hi: int)
    requires at + |w| <= |p| && p[at..at + |w|] == w && 0 <= lo <= hi <= |w|
    ensures p[at + lo..at + hi] == w[lo..hi]
  {
    var s := p[at..at + |w|];
    assert forall k {:trigger s[k]} :: 0 <= k < |w| ==> s[k] == p[at + k];
  }

  /** A range reaching into the next byte raises for a value that uses it, and only then. */
  lemma WideValueRaises(page: seq<byte>)
    requires page != []
    ensures EncodeBits(page, 0, BitRange(4, 11), 16) == None
    ensures EncodeBits(page, 0, BitRange(4, 11), 15).Some?
  {
    Pow2Words();
    ShlMultiplies(Truncated(16, 8), 4);
    ShlMultiplies(Truncated(15, 8), 4);
    assert Pow2(4) == 16;
    hide Shl, MergedBits, Pow2;
    MergedIsByte(page[0], BitRange(4, 11), 16);
    MergedIsByte(page[0], BitRange(4, 11), 15);
  }

  // --- What is not written

  /** A constant whose field, all its elements counted, reaches past the page writes nothing. */
  lemma NoRoomKeeps(page: seq<byte>, c: Constant)
    requires var one := if c.field.dtype == U08 || c.field.dtype == S08 then 1
                        else if c.field.dtype == U16 || c.field.dtype == S16 then 2 else 4;
      c.field.offset + one * (if c.field.arraySize > 0 then c.field.arraySize else 1) > |page|
    ensures Encode(page, c) == Some(page)
  {
  }

  /** A constant within the page whose text or range says nothing writes nothing. */
  lemma NothingSaidKeeps(page: seq<byte>, c: Constant)
    requires (c.content.BitsContent? && c.content.range.None?) || (c.content.ScalarContent? && c.content.user.None?)
    ensures Encode(page, c) == Some(page)
  {
  }

  /** A field that reaches past the page reads as 0. */
  lemma BeyondReadsZero(page: seq<byte>, at: nat, t: DataType, r: BitRange)
    requires at + Size(t) > |page| && r.lo <= r.hi
    ensures DashBits(page, at, t, r) == 0
  {
  }

  /** The first constant that raises ends the load; the ones before it stay written. */
  lemma {:induction false} RaiseStops(page: seq<byte>, before: seq<Constant>, c: Constant, after: seq<Constant>,
                                      p: seq<byte>)
    requires Load(page, before) == Some(p) && Encode(p, c) == None
    ensures Load(page, before + [c] + after) == None && LoadedPart(page, before + [c] + after) == p
    decreases |before|
  {
    hide Encode;
    var cs := before + [c] + after;
    if before == [] {
      assert cs[0] == c;
    } else {
      assert cs[0] == before[0] && cs[1..] == before[1..] + [c] + after;
      RaiseStops(Encode(page, before[0]).value, before[1..], c, after, p);
    }
  }
}
