/** The frame check sequence as ITU-T V.42, section 8.1.1.6.2 defines it: a remainder of polynomials over GF(2). */
module CrcPolynomial {
  import opened Bytes
  import opened BitOps
  import opened Crc32
  import CrcDetection

  /** Coefficients over GF(2), highest power first. */
  type polynomial = seq<bool>

  function Constant(n: nat, m: bool): (p: polynomial)
    ensures |p| == n && forall i :: 0 <= i < n ==> p[i] == m
  {
    seq(n, _ => m)
  }

  /** x^32 + x^26 + x^23 + x^22 + x^16 + x^12 + x^11 + x^10 + x^8 + x^7 + x^5 + x^4 + x^2 + x + 1. */
  predicate HasPower(e: int) {
    e == 32 || e == 26 || e == 23 || e == 22 || e == 16 || e == 12 || e == 11 || e == 10
    || e == 8 || e == 7 || e == 5 || e == 4 || e == 2 || e == 1 || e == 0
  }

  function Generator(): (g: polynomial)
    ensures |g| == 33
  {
    seq(33, i => HasPower(32 - i))
  }

  function Times(q: polynomial, g: polynomial): (p: polynomial)
    requires |g| > 0
    ensures |p| == |q| + |g| - 1
    decreases |q|
  {
    if q == [] then Constant(|g| - 1, false)
    else XorBits((if q[0] then g else Constant(|g|, false)) + Constant(|q| - 1, false),
                 [false] + Times(q[1..], g))
  }

  /** p == q * Generator() + r with r of degree below 32. */
  ghost predicate IsDivision(p: polynomial, q: polynomial, r: polynomial) {
    && |p| == |q| + 32
    && |r| == 32
    && p == XorBits(Times(q, Generator()), Constant(|q|, false) + r)
  }

  function Complement(p: polynomial): polynomial {
    seq(|p|, i requires 0 <= i < |p| => !p[i])
  }

  // --- The register polynomial is the generator without its leading term, reflected

  predicate Reflects(x: nat, e: int)
    decreases e + 1
  {
    e < 0 || ((x % 2 == 1) == HasPower(e) && Reflects(x / 2, e - 1))
  }

  lemma {:induction false} ReflectedBit(x: nat, e: nat, i: nat)
    requires i <= e && Reflects(x, e)
    ensures Bit(x, i) == HasPower(e - i)
    decreases e
  {
    if i > 0 {
      ReflectedBit(x / 2, e - 1, i - 1);
    }
  }

  /** One hexadecimal digit more. */
  lemma ReflectsDigit(x: nat, e: nat)
    requires e >= 3 && Reflects(x / 2 / 2 / 2 / 2, e - 4)
    requires (x % 2 == 1) == HasPower(e) && (x / 2 % 2 == 1) == HasPower(e - 1)
    requires (x / 2 / 2 % 2 == 1) == HasPower(e - 2) && (x / 2 / 2 / 2 % 2 == 1) == HasPower(e - 3)
    ensures Reflects(x, e)
  {
    hide HasPower;
    assert Reflects(x / 2 / 2 / 2, e - 3);
    assert Reflects(x / 2 / 2, e - 2);
    assert Reflects(x / 2, e - 1);
  }

  lemma PolynomialTopByte()
    ensures Reflects(0xED, 7)
  {
    assert Reflects(0, -1);
    hide Reflects;
    ReflectsDigit(0xE, 3);
    ReflectsDigit(0xED, 7);
  }

  lemma PolynomialTopHalf()
    ensures Reflects(0xEDB8, 15)
  {
    hide Reflects;
    PolynomialTopByte();
    ReflectsDigit(0xEDB, 11);
    ReflectsDigit(0xEDB8, 15);
  }

  lemma PolynomialThirdByte()
    ensures Reflects(0xEDB883, 23)
  {
    hide Reflects;
    PolynomialTopHalf();
    ReflectsDigit(0xEDB88, 19);
    ReflectsDigit(0xEDB883, 23);
  }

  lemma PolynomialReflects()
    ensures Reflects(POLYNOMIAL, 31)
  {
    hide Reflects;
    PolynomialThirdByte();
    ReflectsDigit(0xEDB8832, 27);
    ReflectsDigit(0xEDB88320, 31);
  }

  lemma GeneratorIsPolynomial(i: nat)
    requires i < 32
    ensures Generator()[0] && Generator()[i + 1] == Bit(POLYNOMIAL, i)
  {
    PolynomialReflects();
    ReflectedBit(POLYNOMIAL, 31, i);
  }

  // --- Division

  /** The register as a polynomial: bit 0 is the coefficient of the highest power. */
  function Register(c: word): (p: polynomial)
    ensures |p| == 32
  {
    seq(32, i requires 0 <= i < 32 => Bit(c, i))
  }

  /** The register's bits laid over the front of what is still to be divided. */
  function Overlay(c: word, m: seq<bool>): (p: polynomial)
    ensures |p| == |m| + 32
  {
    XorBits(m + Constant(32, false), Register(c) + Constant(|m|, false))
  }

  /** Where the register's bits go in one step. */
  lemma StepMoves(c: word, m: bool, j: nat)
    requires j < 32
    ensures Bit(FeedBit(c, m), j) ==
      ((j < 31 && Bit(c, j + 1)) != ((Bit(c, 0) != m) && Bit(POLYNOMIAL, j)))
  {
    XorParts(c, BitValue(m));
    XorZero(c / 2);
    BitOfXor(c / 2, POLYNOMIAL, j);
    assert !Bit(c, 32) by {
      Pow2Words();
      BitAboveTop(c, 32, 32);
    }
  }

  function LeadingTerm(b: bool, n: nat): (p: polynomial)
    ensures |p| == 33 + n
  {
    (if b then Generator() else Constant(33, false)) + Constant(n, false)
  }

  /** One step of the register is one step of long division: the leading term goes, the rest is reduced. */
  lemma StepDivides(c: word, m: seq<bool>, i: nat)
    requires m != [] && i < |m| + 32
    ensures Overlay(c, m)[0] == (Bit(c, 0) != m[0])
    ensures Overlay(c, m)[i] == (LeadingTerm(Overlay(c, m)[0], |m| - 1)[i]
                                 != ([false] + Overlay(FeedBit(c, m[0]), m[1..]))[i])
  {
    if i == 0 {
      GeneratorIsPolynomial(0);
    } else if i <= 32 {
      GeneratorIsPolynomial(i - 1);
      StepMoves(c, m[0], i - 1);
    }
  }

  /** Feeding a message divides: the register ends as the remainder. */
  lemma {:induction false} FeedDivides(c: word, m: seq<bool>) returns (q: polynomial)
    ensures |q| == |m|
    ensures IsDivision(Overlay(c, m), q, Register(FeedBits(c, m)))
    decreases |m|
  {
    var p, r := Overlay(c, m), Register(FeedBits(c, m));
    if m == [] {
      q := [];
    } else {
      var q' := FeedDivides(FeedBit(c, m[0]), m[1..]);
      q := [p[0]] + q';
      StepDivides(c, m, 0);
      var g := LeadingTerm(p[0], |m| - 1);
      var rest := Overlay(FeedBit(c, m[0]), m[1..]);
      assert p == XorBits(g, [false] + rest) by {
        forall i | 0 <= i < |p|
          ensures p[i] == (g[i] != ([false] + rest)[i])
        {
          StepDivides(c, m, i);
        }
      }
      PrependTerm(p, rest, q', r);
    }
  }

  lemma PrependTerm(p: polynomial, rest: polynomial, q: polynomial, r: polynomial)
    requires IsDivision(rest, q, r) && |p| == |rest| + 1
    requires p == XorBits(LeadingTerm(p[0], |q|), [false] + rest)
    ensures IsDivision(p, [p[0]] + q, r)
  {
    assert ([p[0]] + q)[1..] == q;
  }

  /** Division leaves one remainder only. */
  lemma {:induction false} DivisionUnique(p: polynomial, q: polynomial, r: polynomial, q': polynomial, r': polynomial)
    requires IsDivision(p, q, r) && IsDivision(p, q', r')
    ensures q == q' && r == r'
    decreases |q|
  {
    if q == [] {
      assert Constant(0, false) + r == r && Constant(0, false) + r' == r';
    } else {
      GeneratorIsPolynomial(0);
      assert q[0] == p[0] && q'[0] == p[0];
      var rest := XorBits(p, LeadingTerm(p[0], |q| - 1))[1..];
      RestDivides(p, q, r);
      RestDivides(p, q', r');
      DivisionUnique(rest, q[1..], r, q'[1..], r');
    }
  }

  lemma RestDivides(p: polynomial, q: polynomial, r: polynomial)
    requires IsDivision(p, q, r) && q != [] && q[0] == p[0]
    ensures IsDivision(XorBits(p, LeadingTerm(p[0], |q| - 1))[1..], q[1..], r)
  {
  }

  // --- The frame check sequence

  /** Section 8.1.1.6.2: with M the k bits of the message, the ones complement of the sum modulo 2 of
      the remainder of x^k (x^31 + ... + 1) and the remainder of x^32 M, both divided by the generator. */
  ghost predicate IsFrameCheckSequence(m: seq<bool>, fcs: polynomial) {
    exists q1, r1, q2, r2 ::
      && IsDivision(Constant(32, true) + Constant(|m|, false), q1, r1)
      && IsDivision(m + Constant(32, false), q2, r2)
      && fcs == Complement(XorBits(r1, r2))
  }

  /** What the loop computes is that sequence, and no other sequence is one. */
  lemma ChecksumIsFrameCheckSequence(data: seq<byte>, fcs: polynomial)
    ensures IsFrameCheckSequence(MessageBits(data), fcs) <==> fcs == Register(Checksum(data))
  {
    var m := MessageBits(data);
    var zeros := Constant(|m|, false);
    RegisterOfConstants();
    var q1 := FeedDivides(ALL_ONES, zeros);
    var q2 := FeedDivides(0, m);
    var r1, r2 := Register(FeedBits(ALL_ONES, zeros)), Register(FeedBits(0, m));
    assert Overlay(ALL_ONES, zeros) == Constant(32, true) + zeros;
    assert Overlay(0, m) == m + Constant(32, false);
    RegisterOfChecksum(data);
    if IsFrameCheckSequence(m, fcs) {
      var a1, b1, a2, b2 :|
        && IsDivision(Constant(32, true) + zeros, a1, b1)
        && IsDivision(m + Constant(32, false), a2, b2)
        && fcs == Complement(XorBits(b1, b2));
      DivisionUnique(Constant(32, true) + zeros, q1, r1, a1, b1);
      DivisionUnique(m + Constant(32, false), q2, r2, a2, b2);
    }
  }

  lemma RegisterOfConstants()
    ensures Register(ALL_ONES) == Constant(32, true) && Register(0) == Constant(32, false)
  {
    Pow2Words();
    forall i | 0 <= i < 32
      ensures Bit(ALL_ONES, i) && !Bit(0, i)
    {
      BitOfZero(i);
      AllOnes(0xFFFFFFFF, 32, i);
    }
  }

  lemma {:induction false} AllOnes(x: nat, n: nat, i: nat)
    requires x + 1 == Pow2(n) && i < n
    ensures Bit(x, i)
    decreases n
  {
    if i > 0 {
      AllOnes(x / 2, n - 1, i - 1);
    }
  }

  lemma RegisterOfXor(a: word, b: word)
    ensures Register(XorWord(a, b)) == XorBits(Register(a), Register(b))
  {
    forall i | 0 <= i < 32
      ensures Register(XorWord(a, b))[i] == XorBits(Register(a), Register(b))[i]
    {
      BitOfXor(a, b, i);
    }
  }

  lemma RegisterOfChecksum(data: seq<byte>)
    ensures var m := MessageBits(data);
      Register(Checksum(data)) ==
      Complement(XorBits(Register(FeedBits(ALL_ONES, Constant(|m|, false))), Register(FeedBits(0, m))))
  {
    var m := MessageBits(data);
    var zeros := Constant(|m|, false);
    var x, y := FeedBits(ALL_ONES, zeros), FeedBits(0, m);
    RunIsFeed(ALL_ONES, data);
    assert XorBits(zeros, m) == m;
    XorZero(ALL_ONES);
    CrcDetection.FeedLinear(ALL_ONES, 0, zeros, m);
    RegisterOfXor(x, y);
    RegisterOfXor(XorWord(x, y), ALL_ONES);
    RegisterOfConstants();
  }
}
