/** What the checksum is worth: it is affine, and no error burst of up to 32 bits leaves it unchanged. */
module CrcDetection {
  import opened Bytes
  import opened BitOps
  import opened Crc32

  // --- Affinity

  function XorByte(a: byte, b: byte): byte {
    Pow2Words();
    XorBound(a, b, 8);
    Xor(a, b)
  }

  function XorData(a: seq<byte>, b: seq<byte>): (r: seq<byte>)
    requires |a| == |b|
    ensures |r| == |a|
  {
    seq(|a|, i requires 0 <= i < |a| => XorByte(a[i], b[i]))
  }

  lemma {:induction false} StepsLinear(a: word, b: word, n: nat)
    ensures CrcSteps(XorWord(a, b), n) == XorWord(CrcSteps(a, n), CrcSteps(b, n))
    decreases n
  {
    if n > 0 {
      StepLinear(a, b);
      StepsLinear(CrcStep(a), CrcStep(b), n - 1);
    }
  }

  lemma {:induction false} RunLinear(x: word, y: word, a: seq<byte>, b: seq<byte>)
    requires |a| == |b|
    ensures CrcRun(XorWord(x, y), XorData(a, b)) == XorWord(CrcRun(x, a), CrcRun(y, b))
    decreases |a|
  {
    if a != [] {
      XorExchange(x, y, a[0], b[0]);
      StepsLinear(XorWord(x, a[0]), XorWord(y, b[0]), 8);
      assert XorData(a, b)[1..] == XorData(a[1..], b[1..]);
      RunLinear(CrcByte(x, a[0]), CrcByte(y, b[0]), a[1..], b[1..]);
    }
  }

  /** Over messages of one length the checksum is affine. */
  lemma ChecksumAffine(a: seq<byte>, b: seq<byte>, c: seq<byte>)
    requires |a| == |b| == |c|
    ensures XorWord(XorWord(Checksum(a), Checksum(b)), Checksum(c)) == Checksum(XorData(XorData(a, b), c))
  {
    var o := ALL_ONES;
    var ra, rb, rc := CrcRun(o, a), CrcRun(o, b), CrcRun(o, c);
    XorSelf(o);
    XorZero(o);
    XorZero(Xor(ra, rb));
    RunLinear(o, o, a, b);
    RunLinear(XorWord(o, o), o, XorData(a, b), c);
    XorExchange(ra, o, rb, o);
    XorAssociates(Xor(ra, rb), rc, o);
  }

  // --- Burst detection

  lemma {:induction false} FeedLinear(x: word, y: word, a: seq<bool>, b: seq<bool>)
    requires |a| == |b|
    ensures FeedBits(XorWord(x, y), XorBits(a, b)) == XorWord(FeedBits(x, a), FeedBits(y, b))
    decreases |a|
  {
    if a != [] {
      var ma, mb := BitValue(a[0]), BitValue(b[0]);
      assert BitValue(XorBits(a, b)[0]) == XorWord(ma, mb);
      XorExchange(x, y, ma, mb);
      StepLinear(XorWord(x, ma), XorWord(y, mb));
      assert XorBits(a, b)[1..] == XorBits(a[1..], b[1..]);
      FeedLinear(FeedBit(x, a[0]), FeedBit(y, b[0]), a[1..], b[1..]);
    }
  }

  /** A step whose result has its top bit clear only shifted. */
  lemma StepInverse(c: word)
    requires CrcStep(c) < 0x8000_0000
    ensures c == 2 * CrcStep(c)
  {
    if c % 2 == 1 {
      Pow2Words();
      XorKeepsLeadingBit(c / 2, POLYNOMIAL, 31);
    }
  }

  /** Up to 32 bits can bring the register to zero from one starting value only: the word they spell. */
  lemma {:induction false} OnlyWordToZero(d: word, e: seq<bool>)
    requires |e| <= 32
    requires FeedBits(d, e) == 0
    ensures d == Pack(e)
    decreases |e|
  {
    if e != [] {
      var next := FeedBit(d, e[0]);
      OnlyWordToZero(next, e[1..]);
      PackFits(e[1..]);
      var m := BitValue(e[0]);
      StepInverse(XorWord(d, m));
      XorParts(d, m);
      XorZero(d / 2);
    }
  }

  lemma StepInjective(a: word, b: word)
    requires CrcStep(a) == CrcStep(b)
    ensures a == b
  {
    StepLinear(a, b);
    XorSelf(CrcStep(a));
    StepInverse(XorWord(a, b));
    XorCancels(a, b);
  }

  /** No message erases the state it starts from. */
  lemma {:induction false} FeedInjective(x: word, y: word, ms: seq<bool>)
    requires FeedBits(x, ms) == FeedBits(y, ms)
    ensures x == y
    decreases |ms|
  {
    if ms != [] {
      var m := BitValue(ms[0]);
      FeedInjective(FeedBit(x, ms[0]), FeedBit(y, ms[0]), ms[1..]);
      StepInjective(XorWord(x, m), XorWord(y, m));
      XorExchange(x, m, y, m);
      XorSelf(XorWord(x, m));
      XorSelf(m);
      XorZero(Xor(x, y));
      XorCancels(x, y);
    }
  }

  lemma {:induction false} PackZero(e: seq<bool>)
    requires Pack(e) == 0
    ensures forall i :: 0 <= i < |e| ==> !e[i]
  {
    if e != [] {
      PackZero(e[1..]);
      assert forall i :: 1 <= i < |e| ==> e[i] == e[1..][i - 1];
    }
  }

  /** Up to 32 bits can be told apart by the register they leave. */
  lemma WindowInjective(c: word, v: seq<bool>, w: seq<bool>)
    requires |v| == |w| <= 32
    requires FeedBits(c, v) == FeedBits(c, w)
    ensures v == w
  {
    var e := XorBits(v, w);
    XorSelf(c);
    FeedLinear(c, c, v, w);
    XorSelf(FeedBits(c, v));
    OnlyWordToZero(0, e);
    PackZero(e);
    assert forall i :: 0 <= i < |v| ==> !e[i];
  }

  lemma {:induction false} MessageBitsInjective(p: seq<byte>, q: seq<byte>)
    requires MessageBits(p) == MessageBits(q)
    ensures p == q
  {
    if p != [] {
      var a, b := Bits(p[0], 8), Bits(q[0], 8);
      assert MessageBits(p)[..8] == a && MessageBits(q)[..8] == b;
      assert MessageBits(p)[8..] == MessageBits(p[1..]) && MessageBits(q)[8..] == MessageBits(q[1..]);
      MessageBitsInjective(p[1..], q[1..]);
      ByteIsItsBits(p[0]);
      ByteIsItsBits(q[0]);
    }
  }

  lemma {:induction false} MessageBitsConcat(a: seq<byte>, b: seq<byte>)
    ensures MessageBits(a + b) == MessageBits(a) + MessageBits(b)
  {
    if a == [] {
      assert a + b == b;
    } else {
      assert (a + b)[1..] == a[1..] + b;
      MessageBitsConcat(a[1..], b);
    }
  }

  lemma XorWordInjective(x: word, y: word, o: word)
    requires XorWord(x, o) == XorWord(y, o)
    ensures x == y
  {
    XorSelf(Xor(x, o));
    XorExchange(x, o, y, o);
    XorSelf(o);
    XorZero(Xor(x, y));
    XorCancels(x, y);
  }

  /** Any change confined to 32 consecutive bits of a message changes its checksum. */
  lemma BurstDetected(p: seq<byte>, q: seq<byte>, before: seq<bool>, v: seq<bool>, w: seq<bool>, after: seq<bool>)
    requires MessageBits(p) == before + v + after
    requires MessageBits(q) == before + w + after
    requires |v| == |w| <= 32
    requires p != q
    ensures Checksum(p) != Checksum(q)
  {
    if Checksum(p) == Checksum(q) {
      XorWordInjective(CrcRun(ALL_ONES, p), CrcRun(ALL_ONES, q), ALL_ONES);
      RunIsFeed(ALL_ONES, p);
      RunIsFeed(ALL_ONES, q);
      FeedConcat(ALL_ONES, before + v, after);
      FeedConcat(ALL_ONES, before + w, after);
      FeedConcat(ALL_ONES, before, v);
      FeedConcat(ALL_ONES, before, w);
      FeedInjective(FeedBits(ALL_ONES, before + v), FeedBits(ALL_ONES, before + w), after);
      WindowInjective(FeedBits(ALL_ONES, before), v, w);
      MessageBitsInjective(p, q);
    }
  }

  /** Any change confined to four consecutive bytes of a message changes its checksum. */
  lemma ByteBurstDetected(before: seq<byte>, v: seq<byte>, w: seq<byte>, after: seq<byte>)
    requires |v| == |w| <= 4 && v != w
    ensures Checksum(before + v + after) != Checksum(before + w + after)
  {
    MessageBitsConcat(before + v, after);
    MessageBitsConcat(before, v);
    MessageBitsConcat(before + w, after);
    MessageBitsConcat(before, w);
    var p, q := before + v + after, before + w + after;
    assert p[|before|..|before| + |v|] == v && q[|before|..|before| + |v|] == w;
    BurstDetected(p, q, MessageBits(before), MessageBits(v), MessageBits(w), MessageBits(after));
  }
}
