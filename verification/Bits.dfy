/**
  Fixed-width binary arithmetic on integers. An integer stands for its two's complement bits, so the same
  `Xor` serves unsigned words and the sign-extended words of a widened computation.
*/
module Bits {
  function Pow2(n: nat): (r: nat)
    ensures r >= 1
  {
    if n == 0 then 1 else 2 * Pow2(n - 1)
  }

  /** The exclusive or of the low `n` bits of `a` and `b`. */
  function Xor(n: nat, a: int, b: int): (r: nat)
    ensures r < Pow2(n)
  {
    if n == 0 then 0 else (a % 2 + b % 2) % 2 + 2 * Xor(n - 1, a / 2, b / 2)
  }

  lemma {:induction false} Pow2Adds(m: nat, n: nat)
    ensures Pow2(m + n) == Pow2(m) * Pow2(n)
  {
    if m > 0 {
      Pow2Adds(m - 1, n);
    }
  }

  lemma {:induction false} Pow2Monotone(m: nat, n: nat)
    requires m <= n
    ensures Pow2(m) <= Pow2(n)
    decreases n
  {
    if m < n {
      Pow2Monotone(m, n - 1);
    }
  }

  lemma Pow2Values()
    ensures Pow2(8) == 0x100
    ensures Pow2(16) == 0x1_0000
    ensures Pow2(31) == 0x8000_0000
    ensures Pow2(32) == 0x1_0000_0000
    ensures Pow2(64) == 0x1_0000_0000_0000_0000
  {
    assert Pow2(4) == 16;
    Pow2Adds(4, 4);
    Pow2Adds(8, 8);
    Pow2Adds(16, 16);
    assert Pow2(32) == 2 * Pow2(31);
    Pow2Adds(32, 32);
  }

  lemma XorDigits(n: nat, a: int, b: int)
    requires n > 0
    ensures Xor(n, a, b) / 2 == Xor(n - 1, a / 2, b / 2)
    ensures Xor(n, a, b) % 2 == (a % 2 + b % 2) % 2
  {
  }

  /** Exclusive or with a fixed word is undone by itself. */
  lemma {:induction false} XorTwice(n: nat, a: nat, b: int)
    requires a < Pow2(n)
    ensures Xor(n, Xor(n, a, b), b) == a
  {
    hide Xor, Pow2;
    Pow2Steps(n);
    if n > 0 {
      XorTwice(n - 1, a / 2, b / 2);
      XorDigits(n, a, b);
      XorDigits(n, Xor(n, a, b), b);
      ParityTwice(a, b);
      SameDigits(Xor(n, Xor(n, a, b), b), a);
    } else {
      NoBits(Xor(n, a, b), b);
    }
  }

  lemma ParityTwice(a: int, b: int)
    ensures ((a % 2 + b % 2) % 2 + b % 2) % 2 == a % 2
  {
  }

  lemma {:induction false} XorCommutes(n: nat, a: int, b: int)
    ensures Xor(n, a, b) == Xor(n, b, a)
  {
    if n > 0 {
      XorCommutes(n - 1, a / 2, b / 2);
    }
  }

  lemma {:induction false} XorSwaps(n: nat, a: int, b: int, c: int)
    ensures Xor(n, Xor(n, a, b), c) == Xor(n, Xor(n, a, c), b)
  {
    hide Pow2, Xor;
    if n > 0 {
      XorSwaps(n - 1, a / 2, b / 2, c / 2);
      XorTwiceDigits(n, a, b, c);
      XorTwiceDigits(n, a, c, b);
      SameDigits(Xor(n, Xor(n, a, b), c), Xor(n, Xor(n, a, c), b));
    } else {
      NoBits(Xor(0, a, b), c);
      NoBits(Xor(0, a, c), b);
    }
  }

  lemma NoBits(a: int, b: int)
    ensures Xor(0, a, b) == 0
  {
  }

  lemma XorTwiceDigits(n: nat, a: int, b: int, c: int)
    requires n > 0
    ensures Xor(n, Xor(n, a, b), c) / 2 == Xor(n - 1, Xor(n - 1, a / 2, b / 2), c / 2)
    ensures Xor(n, Xor(n, a, b), c) % 2 == (a % 2 + b % 2 + c % 2) % 2
  {
    hide Xor;
    XorDigits(n, a, b);
    XorDigits(n, Xor(n, a, b), c);
  }

  lemma SameDigits(x: int, y: int)
    requires x / 2 == y / 2 && x % 2 == y % 2
    ensures x == y
  {
  }

  lemma {:induction false} XorZero(n: nat, a: nat)
    requires a < Pow2(n)
    ensures Xor(n, a, 0) == a
  {
    if n > 0 {
      XorZero(n - 1, a / 2);
    }
  }

  /** Bits beyond both operands do not matter. */
  lemma {:induction false} XorWidens(n: nat, a: nat, b: nat)
    requires a < Pow2(n) && b < Pow2(n)
    ensures Xor(n + 1, a, b) == Xor(n, a, b)
  {
    if n > 0 {
      XorWidens(n - 1, a / 2, b / 2);
    }
  }

  /** Low and high bits of an operand can be applied one after the other. */
  lemma {:induction false} XorSplits(n: nat, a: nat, low: nat, k: nat, high: nat)
    requires a < Pow2(n) && low < Pow2(k)
    ensures Xor(n, a, low + Pow2(k) * high) == Xor(n, Xor(n, a, low), Pow2(k) * high)
    decreases k
  {
    hide Xor, Pow2;
    Pow2Steps(n);
    Pow2Steps(k);
    if k == 0 {
      XorZero(n, a);
    } else if n == 0 {
      NoBits(a, low + Pow2(k) * high);
      NoBits(Xor(n, a, low), Pow2(k) * high);
    } else {
      XorSplits(n - 1, a / 2, low / 2, k - 1, high);
      EvenTimes(Pow2(k - 1), high);
      XorSplitDigits(n, a, low, Pow2(k - 1) * high);
    }
  }

  lemma Pow2Steps(n: nat)
    ensures Pow2(n) == if n == 0 then 1 else 2 * Pow2(n - 1)
  {
  }

  lemma XorSplitDigits(n: nat, a: int, low: nat, rest: nat)
    requires n > 0
    requires Xor(n - 1, a / 2, low / 2 + rest) == Xor(n - 1, Xor(n - 1, a / 2, low / 2), rest)
    ensures Xor(n, a, low + 2 * rest) == Xor(n, Xor(n, a, low), 2 * rest)
  {
    hide Xor, Pow2;
    assert (low + 2 * rest) / 2 == low / 2 + rest && (low + 2 * rest) % 2 == low % 2;
    assert 2 * rest / 2 == rest && 2 * rest % 2 == 0;
    XorDigits(n, a, low + 2 * rest);
    XorTwiceDigits(n, a, low, 2 * rest);
    SameDigits(Xor(n, a, low + 2 * rest), Xor(n, Xor(n, a, low), 2 * rest));
  }

  /** Bit `k`, counted from the lowest. */
  predicate Bit(a: int, k: nat)
    decreases k
  {
    if k == 0 then a % 2 == 1 else Bit(a / 2, k - 1)
  }

  lemma {:induction false} XorBit(n: nat, a: int, b: int, k: nat)
    requires k < n
    ensures Bit(Xor(n, a, b), k) <==> Bit(a, k) != Bit(b, k)
    decreases k
  {
    hide Pow2;
    XorDigits(n, a, b);
    if k > 0 {
      XorBit(n - 1, a / 2, b / 2, k - 1);
    }
  }

  lemma {:induction false} NoBitBeyond(a: nat, k: nat)
    requires a < Pow2(k)
    ensures !Bit(a, k)
    decreases k
  {
    if k > 0 {
      NoBitBeyond(a / 2, k - 1);
    }
  }

  /** The bits of a byte and of what stands above it. */
  lemma ByteAndAbove(a: int, k: nat)
    ensures k >= 8 ==> Bit(a, k) == Bit(a / 0x100, k - 8)
  {
    if k >= 8 {
      TwoBitsDown(a, k);
      TwoBitsDown(a / 4, k - 2);
      TwoBitsDown(a / 16, k - 4);
      TwoBitsDown(a / 64, k - 6);
      assert a / 4 / 4 == a / 16 && a / 16 / 4 == a / 64 && a / 64 / 4 == a / 0x100;
    }
  }

  lemma TwoBitsDown(a: int, k: nat)
    requires k >= 2
    ensures Bit(a, k) == Bit(a / 4, k - 2)
  {
    assert a / 2 / 2 == a / 4;
    assert Bit(a, k) == Bit(a / 2, k - 1);
  }

  /** The highest bit of an exclusive or. */
  lemma {:induction false} XorTopBit(n: nat, a: nat, b: nat)
    requires a < Pow2(n) && b < Pow2(n + 1)
    ensures Xor(n + 1, a, b) >= Pow2(n) <==> b >= Pow2(n)
  {
    if n > 0 {
      XorTopBit(n - 1, a / 2, b / 2);
    }
  }

  lemma XorInjective(n: nat, a: nat, a': nat, b: int)
    requires a < Pow2(n) && a' < Pow2(n)
    requires Xor(n, a, b) == Xor(n, a', b)
    ensures a == a'
  {
    XorTwice(n, a, b);
    XorTwice(n, a', b);
  }

  lemma XorInjectiveRight(n: nat, a: int, b: nat, b': nat)
    requires b < Pow2(n) && b' < Pow2(n)
    requires Xor(n, a, b) == Xor(n, a, b')
    ensures b == b'
  {
    XorCommutes(n, a, b);
    XorCommutes(n, a, b');
    XorInjective(n, b, b', a);
  }

  // ---- Multiplication and division ------------------------------------------------------------------------

  lemma MulMonotone(a: int, b: int, p: nat)
    requires a <= b
    ensures a * p <= b * p
  {
  }

  lemma Distribute(a: int, b: int, p: int)
    ensures (a - b) * p == a * p - b * p
    ensures (a + b) * p == a * p + b * p
  {
  }

  lemma DivUnique(a: int, d: nat, q: int, r: int)
    requires 0 <= r < d && a == q * d + r
    ensures a / d == q && a % d == r
  {
    var q', r' := a / d, a % d;
    assert a == q' * d + r';
    if q < q' {
      MulMonotone(q + 1, q', d);
      Distribute(q, 1, d);
    } else if q > q' {
      MulMonotone(q' + 1, q, d);
      Distribute(q', 1, d);
    }
  }

  lemma ShrShrinks(u: nat, p: nat)
    requires p >= 1
    ensures 0 <= u / p <= u
  {
    var q := u / p;
    assert u == q * p + u % p;
    if q < 0 {
      MulMonotone(q, -1, p);
    } else {
      MulMonotone(1, p, q);
    }
  }

  lemma DivDiv2(a: int, p: nat)
    requires p >= 1
    ensures a / (2 * p) == a / 2 / p
  {
    var q := a / 2 / p;
    var r := a / 2 % p;
    assert a / 2 == q * p + r;
    assert q * (2 * p) == 2 * (q * p);
    DivUnique(a, 2 * p, q, 2 * r + a % 2);
  }

  /** Dividing by powers of two composes. */
  lemma {:induction false} DivPow2(a: int, m: nat, n: nat)
    ensures a / Pow2(m + n) == a / Pow2(m) / Pow2(n)
    decreases m
  {
    if m > 0 {
      DivDiv2(a, Pow2(m + n - 1));
      DivDiv2(a, Pow2(m - 1));
      DivPow2(a / 2, m - 1, n);
    }
  }

  /** A quotient by one factor of a bound stays below the other. */
  lemma QuotientBelow(u: nat, p: nat, q: nat)
    requires p >= 1 && u < p * q
    ensures 0 <= u / p < q
  {
    ShrShrinks(u, p);
    assert u == u / p * p + u % p;
    if u / p >= q {
      MulMonotone(q, u / p, p);
    }
  }

  /** Two digits below their bases make a number below the product of the bases. */
  lemma DigitsBelow(l: nat, h: nat, p: nat, q: nat)
    requires l < p && h < q
    ensures 0 <= l * q + h < p * q
  {
    MulMonotone(l, p - 1, q);
    Distribute(p, 1, q);
    MulMonotone(0, l, q);
  }

  lemma ModIdempotent(a: int, d: nat)
    requires d >= 1
    ensures 0 <= a % d < d && a % d % d == a % d
  {
    DivUnique(a % d, d, 0, a % d);
  }

  lemma EvenTimes(h: int, a: int)
    ensures 2 * h * a == 2 * (h * a)
  {
  }

  /** Adding a multiple of the divisor leaves the remainder. */
  lemma SameResidue(x: int, y: int, d: nat, k: int)
    requires d >= 1 && x == y + k * d
    ensures x % d == y % d
  {
    Distribute(y / d, k, d);
    DivUnique(x, d, y / d + k, y % d);
  }
}
