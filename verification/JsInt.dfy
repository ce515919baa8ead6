/**
  JavaScript's 32-bit integers in 64-bit arithmetic (`crates/rdlp-crypto/src/js_int.rs`), with the word
  operations the generators are built from and when each of them is reversible.
*/
module JsInt {
  import opened Wrappers
  import opened Bits
  import opened Words

  type I32 = x: int | -0x8000_0000 <= x < 0x8000_0000
  type I64 = x: int | -0x8000_0000_0000_0000 <= x < 0x8000_0000_0000_0000

  /** The value with the low 32 bits of `n`: JavaScript's `n | 0`. */
  function ToSigned32(n: I64): (r: I32)
    ensures r % WORD == n % WORD
  {
    AsI32(n % WORD)
  }

  function AsU32(x: I32): (u: U32)
    ensures u % WORD == x % WORD
  {
    x % WORD
  }

  function AsI32(u: U32): (x: I32)
    ensures AsU32(x) == u
  {
    if u < 0x8000_0000 then u else u - WORD
  }

  lemma AsU32Injective(x: I32, y: I32)
    requires AsU32(x) == AsU32(y)
    ensures x == y
  {
  }

  // ---- Widened shifts and exclusive ors -------------------------------------------------------------------

  lemma ShiftFits(x: I32, k: nat)
    requires k < 32
    ensures -0x8000_0000_0000_0000 <= x * Pow2(k) < 0x8000_0000_0000_0000
  {
    Pow2Values();
    Pow2Monotone(k, 31);
    MulMonotone(-0x8000_0000, x, Pow2(k));
    MulMonotone(x, 0x8000_0000, Pow2(k));
  }

  /** `i64::from(x) << k`: no bit is lost for a 32-bit operand and a shift below 32. */
  function Shl(x: I32, k: nat): I64
    requires k < 32
  {
    ShiftFits(x, k);
    x * Pow2(k)
  }

  /** Exclusive or of two `i64`. */
  function XorI64(a: I64, b: I64): I64 {
    Pow2Values();
    var u := Xor(64, a, b);
    if u < 0x8000_0000_0000_0000 then u else u - LONG
  }

  /** Exclusive or of two `i32`. */
  function XorI32(a: I32, b: I32): I32 {
    AsI32(Xor32(AsU32(a), AsU32(b)))
  }

  /** `u >> k`. */
  function Shr(u: U32, k: nat): U32 {
    ShrShrinks(u, Pow2(k));
    u / Pow2(k)
  }

  // ---- Exclusive or, bit position by bit position ---------------------------------------------------------

  lemma LowDigit(x: int, y: int, p: nat)
    requires p >= 1 && x / 2 == y
    ensures x % (2 * p) == 2 * (y % p) + x % 2
  {
    assert y == y / p * p + y % p;
    assert y / p * (2 * p) == 2 * (y / p * p);
    DivUnique(x, 2 * p, y / p, 2 * (y % p) + x % 2);
  }

  /** The low bits of an exclusive or are the exclusive or of the low bits. */
  lemma {:induction false} XorLow(n: nat, m: nat, a: int, b: int)
    requires m <= n
    ensures Xor(n, a, b) % Pow2(m) == Xor(m, a, b)
    decreases m
  {
    if m > 0 {
      XorLow(n - 1, m - 1, a / 2, b / 2);
      XorDigits(n, a, b);
      LowDigit(Xor(n, a, b), Xor(n - 1, a / 2, b / 2), Pow2(m - 1));
    }
  }

  /** The high bits of an exclusive or are the exclusive or of the high bits. */
  lemma {:induction false} XorHigh(n: nat, j: nat, a: int, b: int)
    requires j <= n
    ensures Xor(n, a, b) / Pow2(j) == Xor(n - j, a / Pow2(j), b / Pow2(j))
    decreases j
  {
    hide Xor;
    if j > 0 {
      XorHigh(n - 1, j - 1, a / 2, b / 2);
      XorDigits(n, a, b);
      DivDiv2(Xor(n, a, b), Pow2(j - 1));
      DivDiv2(a, Pow2(j - 1));
      DivDiv2(b, Pow2(j - 1));
    } else {
      NothingShifted(n, a, b);
    }
  }

  lemma NothingShifted(n: nat, a: int, b: int)
    ensures Xor(n, a, b) / Pow2(0) == Xor(n, a / Pow2(0), b / Pow2(0))
  {
    hide Xor;
    DivOne(Xor(n, a, b));
    DivOne(a);
    DivOne(b);
  }

  lemma DivOne(a: int)
    ensures a / Pow2(0) == a
  {
  }

  /** An exclusive or of `n` bits sees its operands modulo 2^n. */
  lemma {:induction false} XorCongruent(n: nat, a: int, b: int, b': int)
    requires b % Pow2(n) == b' % Pow2(n)
    ensures Xor(n, a, b) == Xor(n, a, b')
  {
    if n > 0 {
      HalfCongruent(b, b', Pow2(n - 1));
      XorCongruent(n - 1, a / 2, b / 2, b' / 2);
    }
  }

  lemma HalfCongruent(b: int, b': int, p: nat)
    requires p >= 1 && b % (2 * p) == b' % (2 * p)
    ensures b % 2 == b' % 2 && b / 2 % p == b' / 2 % p
  {
    LowDigit(b, b / 2, p);
    LowDigit(b', b' / 2, p);
  }

  lemma XorCongruentBoth(n: nat, a: int, a': int, b: int, b': int)
    requires a % Pow2(n) == a' % Pow2(n) && b % Pow2(n) == b' % Pow2(n)
    ensures Xor(n, a, b) == Xor(n, a', b')
  {
    XorCongruent(n, a, b, b');
    XorCommutes(n, a, b');
    XorCongruent(n, b', a, a');
    XorCommutes(n, b', a');
  }

  lemma Xor32Congruent(a: int, a': int, b: int, b': int)
    requires a % WORD == a' % WORD && b % WORD == b' % WORD
    ensures Xor(32, a, b) == Xor(32, a', b')
  {
    Pow2Values();
    XorCongruentBoth(32, a, a', b, b');
  }

  lemma {:induction false} XorSelf(n: nat, a: int)
    ensures Xor(n, a, a) == 0
  {
    if n > 0 {
      XorSelf(n - 1, a / 2);
    }
  }
}
