/** The CRC-32 that guards every frame: the nested loop of util.c, and the errors it detects. */
module Crc32 {
  import opened Bytes
  import opened BitOps

  type word = x: int | 0 <= x < 0x1_0000_0000

  const POLYNOMIAL: word := 0xEDB88320
  const ALL_ONES: word := 0xFFFFFFFF

  // --- The register, as the C code moves it

  function XorWord(a: word, b: word): word {
    Pow2Words();
    XorBound(a, b, 32);
    Xor(a, b)
  }

  /** One turn of the inner loop. */
  function CrcStep(c: word): word {
    if c % 2 == 1 then XorWord(c / 2, POLYNOMIAL) else c / 2
  }

  function CrcSteps(c: word, n: nat): word
    decreases n
  {
    if n == 0 then c else CrcSteps(CrcStep(c), n - 1)
  }

  /** One turn of the outer loop. */
  function CrcByte(c: word, b: byte): word {
    CrcSteps(XorWord(c, b), 8)
  }

  function CrcRun(c: word, data: seq<byte>): word
    decreases |data|
  {
    if data == [] then c else CrcRun(CrcByte(c, data[0]), data[1..])
  }

  function Checksum(data: seq<byte>): word {
    XorWord(CrcRun(ALL_ONES, data), ALL_ONES)
  }

  lemma {:induction false} RunExtends(c: word, data: seq<byte>, b: byte)
    ensures CrcRun(c, data + [b]) == CrcByte(CrcRun(c, data), b)
    decreases |data|
  {
    if data == [] {
      assert data + [b] == [b];
      assert [b][1..] == [];
    } else {
      assert (data + [b])[1..] == data[1..] + [b];
      RunExtends(CrcByte(c, data[0]), data[1..], b);
    }
  }

  lemma {:induction false} StepsExtend(c: word, n: nat)
    ensures CrcSteps(c, n + 1) == CrcStep(CrcSteps(c, n))
    decreases n
  {
    if n > 0 {
      StepsExtend(CrcStep(c), n - 1);
    }
  }

  /** `ms2d_crc32`. */
  method ComputeCrc32(data: array<byte>, len: nat) returns (crc: word)
    requires len <= data.Length
    ensures crc == Checksum(data[..len])
  {
    crc := 0xFFFFFFFF;
    var i := 0;
    while i < len
      invariant 0 <= i <= len
      invariant crc == CrcRun(ALL_ONES, data[..i])
    {
      ghost var before := crc;
      crc := XorWord(crc, data[i]);
      var j := 0;
      while j < 8
        invariant 0 <= j <= 8
        invariant crc == CrcSteps(XorWord(before, data[i]), j)
      {
        StepsExtend(XorWord(before, data[i]), j);
        if crc % 2 == 1 {
          crc := XorWord(crc / 2, POLYNOMIAL);
        } else {
          crc := crc / 2;
        }
        j := j + 1;
      }
      RunExtends(ALL_ONES, data[..i], data[i]);
      assert data[..i] + [data[i]] == data[..i + 1];
      i := i + 1;
    }
    crc := XorWord(crc, 0xFFFFFFFF);
  }

  // --- The same register fed one bit at a time

  function FeedBit(c: word, m: bool): word {
    CrcStep(XorWord(c, BitValue(m)))
  }

  function FeedBits(c: word, ms: seq<bool>): word
    decreases |ms|
  {
    if ms == [] then c else FeedBits(FeedBit(c, ms[0]), ms[1..])
  }

  /** The bits of a message in the order the register meets them. */
  function MessageBits(data: seq<byte>): (bits: seq<bool>)
    ensures |bits| == 8 * |data|
  {
    if data == [] then [] else Bits(data[0], 8) + MessageBits(data[1..])
  }

  /** The step is linear over exclusive or. */
  lemma StepLinear(a: word, b: word)
    ensures CrcStep(XorWord(a, b)) == XorWord(CrcStep(a), CrcStep(b))
  {
    XorParts(a, b);
    var x, y, p := a / 2, b / 2, POLYNOMIAL;
    XorZero(Xor(x, y));
    XorSelf(p);
    if a % 2 == 1 && b % 2 == 1 {
      XorExchange(x, p, y, p);
    } else if a % 2 == 1 {
      XorAssociates(x, p, y);
      XorCommutes(p, y);
      XorAssociates(x, y, p);
    } else {
      XorAssociates(x, y, p);
    }
  }

  /** A word below 2^31 shifted up one place comes back unchanged, whatever bit rides below it. */
  lemma StepAbsorbs(c: word, w: word, m: bool)
    requires w < 0x8000_0000
    ensures CrcStep(XorWord(c, 2 * w + BitValue(m))) == XorWord(FeedBit(c, m), w)
  {
    assert 2 * w + BitValue(m) == Xor(BitValue(m), 2 * w) by {
      XorParts(BitValue(m), 2 * w);
      XorZero(w);
    }
    XorAssociates(c, BitValue(m), 2 * w);
    StepLinear(XorWord(c, BitValue(m)), 2 * w);
  }

  lemma PackFits(ms: seq<bool>)
    requires |ms| <= 32
    ensures Pack(ms) < 0x1_0000_0000
    ensures |ms| <= 31 ==> Pack(ms) < 0x8000_0000
  {
    Pow2Words();
    Pow2Grows(|ms|, if |ms| <= 31 then 31 else 32);
  }

  /** Xoring a word in and stepping is feeding its bits one at a time. */
  lemma {:induction false} WordIsItsBits(c: word, ms: seq<bool>)
    requires |ms| <= 32
    ensures Pack(ms) < 0x1_0000_0000
    ensures CrcSteps(XorWord(c, Pack(ms)), |ms|) == FeedBits(c, ms)
    decreases |ms|
  {
    PackFits(ms);
    if ms == [] {
      XorZero(c);
    } else {
      PackFits(ms[1..]);
      StepAbsorbs(c, Pack(ms[1..]), ms[0]);
      WordIsItsBits(FeedBit(c, ms[0]), ms[1..]);
    }
  }

  lemma ByteIsItsBits(b: byte)
    ensures Pack(Bits(b, 8)) == b
  {
    Pow2Words();
    PackBits(b, 8);
  }

  lemma {:induction false} FeedConcat(c: word, a: seq<bool>, b: seq<bool>)
    ensures FeedBits(c, a + b) == FeedBits(FeedBits(c, a), b)
    decreases |a|
  {
    if a == [] {
      assert a + b == b;
    } else {
      assert (a + b)[1..] == a[1..] + b;
      FeedConcat(FeedBit(c, a[0]), a[1..], b);
    }
  }

  /** The nested byte loop feeds exactly the message's bits. */
  lemma {:induction false} RunIsFeed(c: word, data: seq<byte>)
    ensures CrcRun(c, data) == FeedBits(c, MessageBits(data))
    decreases |data|
  {
    if data != [] {
      ByteIsItsBits(data[0]);
      WordIsItsBits(c, Bits(data[0], 8));
      FeedConcat(c, Bits(data[0], 8), MessageBits(data[1..]));
      RunIsFeed(CrcByte(c, data[0]), data[1..]);
    }
  }
}
