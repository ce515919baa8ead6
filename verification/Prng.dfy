/**
  The generator steps and mixers (`crates/rdlp-crypto/src/prng.rs`) and which of them permute the 32-bit
  words.
*/
module Prng {
  import opened Wrappers
  import opened Bits
  import opened Words
  import opened JsInt

  const PHI: U32 := 0x9e37_79b9
  const FMIX32_C1: U32 := 0x85eb_ca77
  const FMIX32_C2: U32 := 0xc2b2_ae3d
  const LCG_MULT: U32 := 1_664_525
  const LCG_INC: U32 := 1_013_904_223
  const PCG_MULT: U32 := 0x2c92_77b5
  const PCG_INC: U32 := 0xac56_4b05
  const WEYL_ROL_INC: U32 := 0x6d2b_79f5
  const ROL_SCRAMBLE_MULT: U32 := 0x27d4_eb2d
  const XORSHIFT_ADD_CONST: U32 := 0xa5a5_a5a5
  const MXS_MULT1: U32 := 0x7feb_352d
  const MXS_MULT2: U32 := 0x846c_a68b

  /** Three shift amounts, each below 32. */
  type Shift = k: nat | k < 32

  datatype XorshiftShifts = XorshiftShifts(left1: Shift, right: Shift, left2: Shift)

  /** `XorshiftShifts::new` on three bytes. */
  function NewShifts(left1: Byte, right: Byte, left2: Byte): Option<XorshiftShifts> {
    if left1 < 32 && right < 32 && left2 < 32 then Some(XorshiftShifts(left1, right, left2)) else None
  }

  const XORSHIFT32_SHIFTS: XorshiftShifts := XorshiftShifts(13, 17, 5)
  const XORSHIFT_ADD_SHIFTS: XorshiftShifts := XorshiftShifts(7, 9, 8)
  const ROL7: Shift := 7

  // ---- The steps ------------------------------------------------------------------------------------------

  function ShiftLeftXor(x: I32, k: Shift): I32 {
    ToSigned32(XorI64(x, Shl(x, k)))
  }

  function ShiftRightXor(x: I32, k: Shift): I32 {
    ToSigned32(XorI64(x, Shr(AsU32(x), k)))
  }

  function Xorshift(state: I32, s: XorshiftShifts): I32 {
    ShiftLeftXor(ShiftRightXor(ShiftLeftXor(state, s.left1), s.right), s.left2)
  }

  /** The product and sum fit in 64 bits, so nothing is lost before the narrowing. */
  function LcgStep(s: I32, multiplier: U32, increment: U32): I32 {
    ProductFits(s, multiplier);
    ToSigned32(s * multiplier + increment)
  }

  lemma ProductFits(s: I32, m: U32)
    ensures -0x8000_0000_0000_0000 <= s * m
    ensures s * m + 0xFFFF_FFFF < 0x8000_0000_0000_0000
  {
    MulMonotone(-0x8000_0000, s, m);
    MulMonotone(s, 0x7FFF_FFFF, m);
  }

  function WrappingAdd(a: I32, b: I32): I32 {
    AsI32((a + b) % WORD)
  }

  function WrappingMul(a: I32, b: I32): I32 {
    AsI32(a * b % WORD)
  }

  function WeylStep(s: I32, increment: U32): I32 {
    WrappingAdd(s, AsI32(increment))
  }

  function MulNarrow(s: I32, m: U32): I32 {
    ProductFits(s, m);
    ToSigned32(s * m)
  }

  function Fmix32(s: I32): I32 {
    var s1 := XorI32(s, AsI32(Shr(AsU32(s), 16)));
    var s2 := MulNarrow(s1, FMIX32_C1);
    var s3 := XorI32(s2, AsI32(Shr(AsU32(s2), 13)));
    var s4 := MulNarrow(s3, FMIX32_C2);
    XorI32(s4, AsI32(Shr(AsU32(s4), 16)))
  }

  /** `u32::rotate_left`. */
  function RotateLeft(u: U32, r: Shift): U32 {
    RotateFits(u, r);
    u % Pow2(32 - r) * Pow2(r) + u / Pow2(32 - r)
  }

  lemma RotateFits(u: U32, r: Shift)
    ensures 0 <= u % Pow2(32 - r) * Pow2(r) + u / Pow2(32 - r) < 0x1_0000_0000
    ensures 0 <= u / Pow2(32 - r) < Pow2(r)
  {
    hide Pow2;
    QuotientFits(u, 32 - r);
    Pow2Values();
    Pow2Adds(32 - r, r);
    DigitsBelow(u % Pow2(32 - r), u / Pow2(32 - r), Pow2(32 - r), Pow2(r));
  }

  lemma QuotientFits(u: U32, j: nat)
    requires j <= 32
    ensures 0 <= u / Pow2(j) < Pow2(32 - j)
  {
    Pow2Values();
    Pow2Adds(j, 32 - j);
    QuotientBelow(u, Pow2(j), Pow2(32 - j));
  }

  function RotateScramble(s: I32, rotation: Shift): I32 {
    var x := AsI32(RotateLeft(AsU32(s), rotation));
    var y := WrappingAdd(x, AsI32(PHI));
    var z := XorI32(y, AsI32(Shr(AsU32(y), 11)));
    WrappingMul(z, AsI32(ROL_SCRAMBLE_MULT))
  }

  function PcgXshRs(state: I32): I32 {
    var s2 := ShiftRightXor(state, 18);
    var shift := Shr(AsU32(state), 27) % 32;
    AsI32(Shr(AsU32(s2), shift))
  }

  function MxsMix(state: I32, mult1: U32, mult2: U32): I32 {
    var x := ShiftLeftXor(state, 5);
    var y := MulNarrow(x, mult1);
    var z := ShiftRightXor(y, 15);
    MulNarrow(z, mult2)
  }

  // ---- The widened steps are the 32-bit ones --------------------------------------------------------------

  /** The unsigned 32-bit step with the same shifts. */
  function XorshiftU32(u: U32, s: XorshiftShifts): U32 {
    var a := Xor32(u, u * Pow2(s.left1) % WORD);
    var b := Xor32(a, Shr(a, s.right));
    Xor32(b, b * Pow2(s.left2) % WORD)
  }

  /** Narrowing sees an exclusive or of longs as unsigned. */
  lemma NarrowedLong(a: I64, b: I64)
    ensures XorI64(a, b) % WORD == Xor(64, a, b) % WORD
  {
    hide Xor;
    var u := Xor(64, a, b);
    SameResidue(u - LONG, u, WORD, -WORD);
  }

  lemma NarrowedXor(a: I64, b: I64)
    ensures AsU32(ToSigned32(XorI64(a, b))) == Xor(32, a, b)
  {
    hide Xor, XorI64;
    Pow2Values();
    XorLow(64, 32, a, b);
    NarrowedLong(a, b);
    ModIdempotent(XorI64(a, b), WORD);
  }

  lemma ProductCongruent(a: int, b: int, p: int)
    requires a % WORD == b % WORD
    ensures a * p % WORD == b * p % WORD
  {
    var d := a / WORD - b / WORD;
    assert a == b + d * WORD;
    Distribute(b, d * WORD, p);
    assert d * WORD * p == d * p * WORD;
    assert a * p == b * p + d * p * WORD;
    DivUnique(a * p, WORD, b * p / WORD + d * p, b * p % WORD);
  }

  lemma ShiftLeftXorBits(x: I32, k: Shift)
    ensures AsU32(ShiftLeftXor(x, k)) == Xor32(AsU32(x), AsU32(x) * Pow2(k) % WORD)
  {
    NarrowedXor(x, Shl(x, k));
    ProductCongruent(x, AsU32(x), Pow2(k));
    ModIdempotent(AsU32(x) * Pow2(k), WORD);
    Xor32Congruent(x, AsU32(x), Shl(x, k), AsU32(x) * Pow2(k) % WORD);
  }

  lemma ShiftRightXorBits(x: I32, k: Shift)
    ensures AsU32(ShiftRightXor(x, k)) == Xor32(AsU32(x), Shr(AsU32(x), k))
  {
    NarrowedXor(x, Shr(AsU32(x), k));
    Xor32Congruent(x, AsU32(x), Shr(AsU32(x), k), Shr(AsU32(x), k));
  }

  /** For every admissible shift triple the 64-bit emulation computes the 32-bit xorshift. */
  lemma WidenedXorshiftIsXorshift(state: I32, s: XorshiftShifts)
    ensures AsU32(Xorshift(state, s)) == XorshiftU32(AsU32(state), s)
  {
    var a := ShiftLeftXor(state, s.left1);
    var b := ShiftRightXor(a, s.right);
    ShiftLeftXorBits(state, s.left1);
    ShiftRightXorBits(a, s.right);
    ShiftLeftXorBits(b, s.left2);
  }

  // ---- Which building blocks are reversible ---------------------------------------------------------------

  lemma Regroup(d: int, p: int, q: int)
    ensures d * p * (2 * q) == d * q * (2 * p)
  {
  }

  /** With 2^(n-1) dividing their difference, two words agree modulo 2^n once shifted left at all. */
  lemma ShiftedAgree(u: int, v: int, n: nat, k: nat)
    requires n >= 1 && k >= 1 && u % Pow2(n - 1) == v % Pow2(n - 1)
    ensures u * Pow2(k) % Pow2(n) == v * Pow2(k) % Pow2(n)
  {
    var p, q := Pow2(n - 1), Pow2(k - 1);
    var d := u / p - v / p;
    assert u == v + d * p;
    Distribute(v, d * p, Pow2(k));
    Regroup(d, p, q);
    SameResidue(u * Pow2(k), v * Pow2(k), Pow2(n), d * q);
  }

  /** Equal exclusive ors whose second operands agree modulo 2^n have first operands that do. */
  lemma XorModulo(u: int, v: int, b: int, b': int, n: nat)
    requires n <= 32 && Xor(32, u, b) == Xor(32, v, b') && b % Pow2(n) == b' % Pow2(n)
    ensures u % Pow2(n) == v % Pow2(n)
  {
    XorLow(32, n, u, b);
    XorLow(32, n, v, b');
    ModIdempotent(u, Pow2(n));
    ModIdempotent(v, Pow2(n));
    XorCongruentBoth(n, u, u % Pow2(n), b, b);
    XorCongruentBoth(n, v, v % Pow2(n), b', b);
    XorInjective(n, u % Pow2(n), v % Pow2(n), b);
  }

  lemma {:induction false} LeftInjectiveModulo(u: U32, v: U32, k: nat, n: nat)
    requires k >= 1 && n <= 32
    requires Xor(32, u, u * Pow2(k)) == Xor(32, v, v * Pow2(k))
    ensures u % Pow2(n) == v % Pow2(n)
    decreases n
  {
    if n > 0 {
      LeftInjectiveModulo(u, v, k, n - 1);
      ShiftedAgree(u, v, n, k);
      XorModulo(u, v, u * Pow2(k), v * Pow2(k), n);
    }
  }

  /** A left shift by at least one, folded in, loses nothing. */
  lemma ShiftLeftXorInjective(x: I32, y: I32, k: Shift)
    requires k >= 1 && ShiftLeftXor(x, k) == ShiftLeftXor(y, k)
    ensures x == y
  {
    ShiftLeftXorBits(x, k);
    ShiftLeftXorBits(y, k);
    var u, v := AsU32(x), AsU32(y);
    ModIdempotent(u * Pow2(k), WORD);
    ModIdempotent(v * Pow2(k), WORD);
    Xor32Congruent(u, u, u * Pow2(k), u * Pow2(k) % WORD);
    Xor32Congruent(v, v, v * Pow2(k), v * Pow2(k) % WORD);
    LeftInjectiveModulo(u, v, k, 32);
    Pow2Values();
    AsU32Injective(x, y);
  }

  lemma {:induction false} RightInjectiveAbove(u: U32, v: U32, k: nat, j: nat)
    requires 1 <= k && j <= 32
    requires Xor(32, u, u / Pow2(k)) == Xor(32, v, v / Pow2(k))
    ensures u / Pow2(j) == v / Pow2(j)
    decreases 32 - j
  {
    hide Xor;
    Pow2Values();
    if j == 32 {
      DivUnique(u, Pow2(32), 0, u);
      DivUnique(v, Pow2(32), 0, v);
    } else {
      RightInjectiveAbove(u, v, k, j + 1);
      DivPow2(u, j + 1, k - 1);
      DivPow2(v, j + 1, k - 1);
      DivPow2(u, k, j);
      DivPow2(v, k, j);
      assert k + j == j + 1 + (k - 1);
      XorHigh(32, j, u, u / Pow2(k));
      XorHigh(32, j, v, v / Pow2(k));
      QuotientFits(u, j);
      QuotientFits(v, j);
      XorInjective(32 - j, u / Pow2(j), v / Pow2(j), u / Pow2(k) / Pow2(j));
    }
  }

  /** A right shift by at least one, folded in, loses nothing. */
  lemma RightXorInjective(u: U32, v: U32, k: Shift)
    requires k >= 1 && Xor32(u, Shr(u, k)) == Xor32(v, Shr(v, k))
    ensures u == v
  {
    RightInjectiveAbove(u, v, k, 0);
    assert Pow2(0) == 1;
  }

  lemma ShiftRightXorInjective(x: I32, y: I32, k: Shift)
    requires k >= 1 && ShiftRightXor(x, k) == ShiftRightXor(y, k)
    ensures x == y
  {
    ShiftRightXorBits(x, k);
    ShiftRightXorBits(y, k);
    RightXorInjective(AsU32(x), AsU32(y), k);
    AsU32Injective(x, y);
  }

  /** `s ^ (s >>> k)` in 32 bits. */
  lemma XorShrInjective(x: I32, y: I32, k: Shift)
    requires k >= 1 && XorI32(x, AsI32(Shr(AsU32(x), k))) == XorI32(y, AsI32(Shr(AsU32(y), k)))
    ensures x == y
  {
    RightXorInjective(AsU32(x), AsU32(y), k);
    AsU32Injective(x, y);
  }

  /** An odd factor cancels modulo a power of two. */
  lemma {:induction false} OddCancels(d: int, c: int, n: nat)
    requires c % 2 == 1 && d * c % Pow2(n) == 0
    ensures d % Pow2(n) == 0
    decreases n
  {
    if n > 0 {
      HalveProduct(d, c, Pow2(n - 1));
      OddCancels(d / 2, c, n - 1);
      LowDigit(d, d / 2, Pow2(n - 1));
    }
  }

  lemma HalveProduct(d: int, c: int, p: nat)
    requires c % 2 == 1 && p >= 1 && d * c % (2 * p) == 0
    ensures d % 2 == 0 && d / 2 * c % p == 0
  {
    LowDigit(d * c, d * c / 2, p);
    OddProduct(d, c);
    assert d == 2 * (d / 2);
    assert d * c == 2 * (d / 2 * c);
  }

  lemma OddProduct(d: int, c: int)
    requires c % 2 == 1
    ensures d * c % 2 == d % 2
  {
    var f := c / 2;
    assert c == 2 * f + 1;
    EvenTimes(f, d);
    SameResidue(d * c, d, 2, f * d);
  }

  lemma OddProductInjective(x: I32, y: I32, c: int)
    requires c % 2 == 1 && x * c % WORD == y * c % WORD
    ensures x == y
  {
    Distribute(x, y, c);
    var m := x * c / WORD - y * c / WORD;
    assert (x - y) * c == m * WORD;
    DivUnique((x - y) * c, WORD, m, 0);
    Pow2Values();
    OddCancels(x - y, c, 32);
  }

  lemma MulNarrowInjective(x: I32, y: I32, m: U32)
    requires m % 2 == 1 && MulNarrow(x, m) == MulNarrow(y, m)
    ensures x == y
  {
    OddProductInjective(x, y, m);
  }

  /** A rotated word still shows the two parts it was cut into. */
  lemma RotateParts(u: U32, r: Shift)
    ensures RotateLeft(u, r) / Pow2(r) == u % Pow2(32 - r) && RotateLeft(u, r) % Pow2(r) == u / Pow2(32 - r)
  {
    RotateFits(u, r);
    DivUnique(RotateLeft(u, r), Pow2(r), u % Pow2(32 - r), u / Pow2(32 - r));
  }

  lemma SameParts(u: int, v: int, p: nat)
    requires p >= 1 && u / p == v / p && u % p == v % p
    ensures u == v
  {
    assert u == u / p * p + u % p && v == v / p * p + v % p;
  }

  lemma RotateLeftInjective(u: U32, v: U32, r: Shift)
    requires RotateLeft(u, r) == RotateLeft(v, r)
    ensures u == v
  {
    RotateParts(u, r);
    RotateParts(v, r);
    SameParts(u, v, Pow2(32 - r));
  }

  // ---- Which steps are permutations -----------------------------------------------------------------------

  ghost predicate Injective(f: I32 -> I32) {
    forall x: I32, y: I32 :: f(x) == f(y) ==> x == y
  }

  function XorshiftBy(s: XorshiftShifts): I32 -> I32 {
    (x: I32) => Xorshift(x, s)
  }

  lemma ZeroShiftErases(x: I32)
    ensures ShiftLeftXor(x, 0) == 0 && ShiftRightXor(x, 0) == 0
  {
    ShiftLeftXorBits(x, 0);
    ShiftRightXorBits(x, 0);
    assert Pow2(0) == 1;
    Pow2Values();
    XorSelf(32, AsU32(x));
    AsU32Injective(ShiftLeftXor(x, 0), 0);
    AsU32Injective(ShiftRightXor(x, 0), 0);
  }

  /** A xorshift permutes the words exactly when none of its shifts is zero; a zero shift makes it constant. */
  lemma XorshiftPermutesExactly(s: XorshiftShifts)
    ensures Injective(XorshiftBy(s)) <==> s.left1 > 0 && s.right > 0 && s.left2 > 0
  {
    if s.left1 > 0 && s.right > 0 && s.left2 > 0 {
      forall x: I32, y: I32 | Xorshift(x, s) == Xorshift(y, s) ensures x == y {
        var a, b := ShiftLeftXor(x, s.left1), ShiftLeftXor(y, s.left1);
        ShiftLeftXorInjective(ShiftRightXor(a, s.right), ShiftRightXor(b, s.right), s.left2);
        ShiftRightXorInjective(a, b, s.right);
        ShiftLeftXorInjective(x, y, s.left1);
      }
    } else {
      forall x: I32, y: I32 ensures Xorshift(x, s) == Xorshift(y, s) {
        ZeroShiftErases(x);
        ZeroShiftErases(y);
        ZeroShiftErases(ShiftLeftXor(x, s.left1));
        ZeroShiftErases(ShiftLeftXor(y, s.left1));
        ZeroShiftErases(ShiftRightXor(ShiftLeftXor(x, s.left1), s.right));
        ZeroShiftErases(ShiftRightXor(ShiftLeftXor(y, s.left1), s.right));
      }
      assert XorshiftBy(s)(0) == XorshiftBy(s)(1);
    }
  }

  /** Of the triples the constructor accepts, exactly those without a zero give a permutation. */
  lemma AcceptedShiftsPermuteExactly(left1: Byte, right: Byte, left2: Byte)
    ensures var s := NewShifts(left1, right, left2);
      s.Some? && Injective(XorshiftBy(s.value)) <==> 1 <= left1 < 32 && 1 <= right < 32 && 1 <= left2 < 32
  {
    if left1 < 32 && right < 32 && left2 < 32 {
      XorshiftPermutesExactly(XorshiftShifts(left1, right, left2));
    }
  }

  lemma XorshiftOfZero(s: XorshiftShifts)
    ensures Xorshift(0, s) == 0
  {
    Pow2Values();
    XorZero(32, 0);
    ShiftLeftXorBits(0, s.left1);
    AsU32Injective(ShiftLeftXor(0, s.left1), 0);
    ShiftRightXorBits(0, s.right);
    DivUnique(0, Pow2(s.right), 0, 0);
    AsU32Injective(ShiftRightXor(0, s.right), 0);
    ShiftLeftXorBits(0, s.left2);
    AsU32Injective(ShiftLeftXor(0, s.left2), 0);
  }

  /** From a nonzero seed, algorithm 2 never falls into the fixed point zero. */
  lemma XorshiftAvoidsZero(x: I32, s: XorshiftShifts)
    requires s.left1 > 0 && s.right > 0 && s.left2 > 0
    ensures Xorshift(x, s) == 0 <==> x == 0
  {
    XorshiftPermutesExactly(s);
    XorshiftOfZero(s);
    assert XorshiftBy(s)(x) == XorshiftBy(s)(0) ==> x == 0;
  }

  lemma Fmix32Permutes()
    ensures Injective(Fmix32)
  {
    forall x: I32, y: I32 | Fmix32(x) == Fmix32(y) ensures x == y {
      Fmix32Injective(x, y);
    }
  }

  lemma Fmix32Injective(x: I32, y: I32)
    requires Fmix32(x) == Fmix32(y)
    ensures x == y
  {
    var a1, b1 := XorI32(x, AsI32(Shr(AsU32(x), 16))), XorI32(y, AsI32(Shr(AsU32(y), 16)));
    var a2, b2 := MulNarrow(a1, FMIX32_C1), MulNarrow(b1, FMIX32_C1);
    var a3, b3 := XorI32(a2, AsI32(Shr(AsU32(a2), 13))), XorI32(b2, AsI32(Shr(AsU32(b2), 13)));
    XorShrInjective(MulNarrow(a3, FMIX32_C2), MulNarrow(b3, FMIX32_C2), 16);
    MulNarrowInjective(a3, b3, FMIX32_C2);
    XorShrInjective(a2, b2, 13);
    MulNarrowInjective(a1, b1, FMIX32_C1);
    XorShrInjective(x, y, 16);
  }

  function RotateScrambleBy(r: Shift): I32 -> I32 {
    (x: I32) => RotateScramble(x, r)
  }

  lemma RotateScramblePermutes(r: Shift)
    ensures Injective(RotateScrambleBy(r))
  {
    forall x: I32, y: I32 | RotateScramble(x, r) == RotateScramble(y, r) ensures x == y {
      RotateScrambleInjective(x, y, r);
    }
  }

  lemma RotateScrambleInjective(x: I32, y: I32, r: Shift)
    requires RotateScramble(x, r) == RotateScramble(y, r)
    ensures x == y
  {
    var a, b := AsI32(RotateLeft(AsU32(x), r)), AsI32(RotateLeft(AsU32(y), r));
    var c, d := WrappingAdd(a, AsI32(PHI)), WrappingAdd(b, AsI32(PHI));
    MixInjective(c, d);
    WrappingAddInjective(a, b, AsI32(PHI));
    RotateLeftInjective(AsU32(x), AsU32(y), r);
    AsU32Injective(x, y);
  }

  lemma WrappingAddInjective(a: I32, b: I32, k: I32)
    requires WrappingAdd(a, k) == WrappingAdd(b, k)
    ensures a == b
  {
  }

  /** The closing xor-shift and multiplication of the rotate scrambler. */
  lemma MixInjective(c: I32, d: I32)
    requires WrappingMul(XorI32(c, AsI32(Shr(AsU32(c), 11))), AsI32(ROL_SCRAMBLE_MULT))
          == WrappingMul(XorI32(d, AsI32(Shr(AsU32(d), 11))), AsI32(ROL_SCRAMBLE_MULT))
    ensures c == d
  {
    OddProductInjective(XorI32(c, AsI32(Shr(AsU32(c), 11))), XorI32(d, AsI32(Shr(AsU32(d), 11))),
                        AsI32(ROL_SCRAMBLE_MULT));
    XorShrInjective(c, d, 11);
  }
}
