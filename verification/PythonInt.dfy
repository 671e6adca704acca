/** Python's bitwise operators on unbounded signed integers. */
module PythonInt {
  import opened BitOps

  function Magnitude(a: int): nat {
    if a < 0 then -a else a
  }

  /** `a & b`. */
  function And(a: int, b: int): int
    decreases Magnitude(a) + Magnitude(b)
  {
    if a == 0 || b == 0 then 0
    else if a == -1 then b
    else if b == -1 then a
    else 2 * And(a / 2, b / 2) + BitValue(a % 2 == 1 && b % 2 == 1)
  }

  /** `~a`. */
  function Not(a: int): int {
    -1 - a
  }

  /** `a | b`. */
  function Or(a: int, b: int): int {
    Not(And(Not(a), Not(b)))
  }

  /** `a << n`. */
  function Shl(a: int, n: nat): int {
    if n == 0 then a else 2 * Shl(a, n - 1)
  }

  /** `a >> n`. */
  function Shr(a: int, n: nat): int
    decreases n
  {
    if n == 0 then a else Shr(a / 2, n - 1)
  }

  // --- What they do to each bit

  lemma {:induction false} BitOfNot(a: int, k: nat)
    ensures Bit(Not(a), k) == !Bit(a, k)
    decreases k
  {
    if k > 0 {
      assert Not(a) / 2 == Not(a / 2);
      BitOfNot(a / 2, k - 1);
    }
  }

  lemma {:induction false} BitOfMinusOne(k: nat)
    ensures Bit(-1, k) && !Bit(0, k)
  {
    if k > 0 {
      BitOfMinusOne(k - 1);
    }
  }

  lemma {:induction false} BitOfAnd(a: int, b: int, k: nat)
    ensures Bit(And(a, b), k) == (Bit(a, k) && Bit(b, k))
    decreases k
  {
    BitOfMinusOne(k);
    if a != 0 && b != 0 && a != -1 && b != -1 && k > 0 {
      BitOfAnd(a / 2, b / 2, k - 1);
    }
  }

  lemma BitOfOr(a: int, b: int, k: nat)
    ensures Bit(Or(a, b), k) == (Bit(a, k) || Bit(b, k))
  {
    BitOfNot(a, k);
    BitOfNot(b, k);
    BitOfAnd(Not(a), Not(b), k);
    BitOfNot(And(Not(a), Not(b)), k);
  }

  lemma {:induction false} BitOfShl(a: int, n: nat, k: nat)
    ensures Bit(Shl(a, n), k) == (k >= n && Bit(a, k - n))
    decreases n
  {
    if n > 0 && k > 0 {
      BitOfShl(a, n - 1, k - 1);
    }
  }

  lemma {:induction false} BitOfShr(a: int, n: nat, k: nat)
    ensures Bit(Shr(a, n), k) == Bit(a, k + n)
    decreases n
  {
    if n > 0 {
      BitOfShr(a / 2, n - 1, k);
    }
  }

  /** `(1 << n) - 1` has exactly the low n bits. */
  lemma {:induction false} BitOfMask(n: nat, k: nat)
    ensures Bit(Shl(1, n) - 1, k) == (k < n)
    decreases n
  {
    if n == 0 {
      BitOfMinusOne(k);
    } else if k > 0 {
      BitOfMask(n - 1, k - 1);
    }
  }

  /** A value cut to its low n bits. */
  function Truncated(a: int, n: nat): (r: int)
    ensures 0 <= r < Pow2(n)
  {
    a % Pow2(n)
  }

  lemma {:induction false} BitOfTruncated(a: int, n: nat, k: nat)
    ensures Bit(Truncated(a, n), k) == (k < n && Bit(a, k))
    decreases n
  {
    if n == 0 {
      BitOfMinusOne(k);
    } else {
      ModHalves(a, n);
      if k > 0 {
        BitOfTruncated(a / 2, n - 1, k - 1);
      }
    }
  }

  lemma ModHalves(a: int, n: nat)
    requires n > 0
    ensures a % Pow2(n) / 2 == a / 2 % Pow2(n - 1)
    ensures a % Pow2(n) % 2 == a % 2
  {
    var p := Pow2(n - 1);
    var q, r := a / 2 / p, a / 2 % p;
    assert a / 2 == q * p + r;
    assert a == q * (2 * p) + (2 * r + a % 2);
    ModUnique(a, 2 * p, q, 2 * r + a % 2);
  }

  lemma ModUnique(a: int, m: int, q: int, r: int)
    requires m > 0 && a == q * m + r && 0 <= r < m
    ensures a % m == r
  {
    var d := q - a / m;
    assert a == a / m * m + a % m;
    assert d * m == a % m - r;
  }

  ghost predicate NoBitsFrom(x: int, n: nat) {
    forall k: nat :: k >= n ==> !Bit(x, k)
  }

  lemma NoBitsHalve(x: int, n: nat)
    requires n > 0
    ensures NoBitsFrom(x, n) <==> NoBitsFrom(x / 2, n - 1)
  {
    if NoBitsFrom(x, n) {
      forall k: nat | k >= n - 1
        ensures !Bit(x / 2, k)
      {
        assert !Bit(x, k + 1);
      }
    }
    if NoBitsFrom(x / 2, n - 1) {
      forall k: nat | k >= n
        ensures !Bit(x, k)
      {
        assert !Bit(x / 2, k - 1);
      }
    }
  }

  /** A number lies in 0 .. 2^n - 1 exactly when it has no bit from n up. */
  lemma {:induction false} NoHighBits(x: int, n: nat)
    ensures 0 <= x < Pow2(n) <==> NoBitsFrom(x, n)
    decreases n, Magnitude(x)
  {
    if n > 0 {
      NoHighBits(x / 2, n - 1);
      NoBitsHalve(x, n);
    } else if x == 0 {
      forall k: nat
        ensures !Bit(x, k)
      {
        BitOfMinusOne(k);
      }
    } else if x == -1 {
      BitOfMinusOne(0);
    } else if NoBitsFrom(x, 0) {
      assert !Bit(x, 0);
      assert NoBitsFrom(x, 1);
      NoBitsHalve(x, 1);
      NoHighBits(x / 2, 0);
    }
  }

  /** Numbers with the same bits are the same. */
  lemma {:induction false} SameBits(a: int, b: int)
    requires forall k: nat :: Bit(a, k) == Bit(b, k)
    ensures a == b
    decreases Magnitude(a) + Magnitude(b)
  {
    assert Bit(a, 0) == Bit(b, 0);
    if (a != 0 && a != -1) || (b != 0 && b != -1) {
      forall k: nat
        ensures Bit(a / 2, k) == Bit(b / 2, k)
      {
        assert Bit(a, k + 1) == Bit(b, k + 1);
      }
      SameBits(a / 2, b / 2);
    }
  }
}
