/**
  The generator steps and mixers of `crates/rdlp-crypto/src/prng.rs` run backwards: an explicit inverse for
  each of them, and with it the seed from the first word drawn.
*/
module Inverses {
  import opened Wrappers
  import opened Bits
  import opened Words
  import opened JsInt
  import opened Prng
  import opened FullPeriod
  import opened Generator

  // ---- Folded shifts ----------------------------------------------------------------------------------------

  /** Undoes `u ^ (u >> k)`. */
  function UndoRight(v: U32, k: nat): (u: U32)
    requires k >= 1
    decreases v
  {
    if v < Pow2(k) then v
    else
      ShrinksProperly(v, k);
      Xor32(v, UndoRight(v / Pow2(k), k))
  }

  lemma ShrinksProperly(v: nat, k: nat)
    requires k >= 1 && v >= 1
    ensures 0 <= v / Pow2(k) < v
  {
    hide Pow2;
    Pow2Steps(k);
    ProperQuotient(v, Pow2(k));
  }

  lemma ProperQuotient(v: nat, p: nat)
    requires p >= 2 && v >= 1
    ensures 0 <= v / p < v
  {
    var q := v / p;
    ShrShrinks(v, p);
    MulMonotone(2, p, q);
    assert v == q * p + v % p;
  }

  lemma ShiftedFold(u: U32, k: Shift)
    ensures Xor32(u, Shr(u, k)) / Pow2(k) == Xor32(u / Pow2(k), Shr(u / Pow2(k), k))
  {
    hide Xor, Pow2, Shr;
    QuotientFits(u, k);
    ShrShrinks(u, Pow2(k));
    var z := Shifted(u, k);
    var y := Shifted(z, k);
    ShrShrinks(z, Pow2(k));
    HighPartFolded(u, z, y, k);
  }

  lemma Shifted(u: U32, k: Shift) returns (z: U32)
    ensures z == Shr(u, k) == u / Pow2(k)
  {
    z := Shr(u, k);
  }

  lemma HighPartFolded(u: nat, z: nat, y: nat, k: nat)
    requires k <= 32 && z == u / Pow2(k) && y == z / Pow2(k) && y <= z < Pow2(32 - k)
    ensures Xor(32, u, z) / Pow2(k) == Xor(32, z, y)
  {
    hide Xor, Pow2;
    XorHigh(32, k, u, z);
    NarrowerXor(z, y, k);
  }

  /** Words that fit in fewer bits have the same exclusive or in more. */
  lemma {:induction false} NarrowerXor(a: nat, b: nat, k: nat)
    requires k <= 32 && a < Pow2(32 - k) && b < Pow2(32 - k)
    ensures Xor(32 - k, a, b) == Xor(32, a, b)
  {
    hide Xor;
    if k > 0 {
      Pow2Monotone(32 - k, 33 - k);
      NarrowerXor(a, b, k - 1);
      XorWidens(32 - k, a, b);
    }
  }

  lemma NothingFolded(u: U32, k: Shift)
    requires u < Pow2(k)
    ensures Xor32(u, Shr(u, k)) == u
  {
    hide Xor;
    Pow2Values();
    DivUnique(u, Pow2(k), 0, u);
    XorZero(32, u);
  }

  lemma ZeroIsKept(k: nat)
    requires k >= 1
    ensures UndoRight(0, k) == 0
  {
  }

  lemma {:induction false} RightUndone(u: U32, k: Shift)
    requires k >= 1
    ensures UndoRight(Xor32(u, Shr(u, k)), k) == u
    decreases u
  {
    hide Xor, Pow2;
    var v := Xor32(u, Shr(u, k));
    if u < Pow2(k) {
      NothingFolded(u, k);
    } else {
      var z := u / Pow2(k);
      ShrinksProperly(u, k);
      ShiftedFold(u, k);
      RightUndone(z, k);
      AboveStays(u, v, v / Pow2(k), k);
      Pow2Values();
      XorTwice(32, u, z);
    }
  }

  /** A folded shift keeps the highest bit, so it does not lead below the shift. */
  lemma AboveStays(u: U32, v: U32, q: U32, k: Shift)
    requires k >= 1 && u >= Pow2(k) && q == v / Pow2(k) && UndoRight(q, k) == u / Pow2(k)
    ensures v >= Pow2(k)
  {
    hide Pow2;
    BelowIsZero(v, Pow2(k));
    ZeroIsKept(k);
    ProperQuotientPositive(u, Pow2(k));
  }

  lemma BelowIsZero(v: nat, p: nat)
    requires p >= 1
    ensures v < p ==> v / p == 0
  {
    if v < p {
      DivUnique(v, p, 0, v);
    }
  }

  lemma ProperQuotientPositive(u: nat, p: nat)
    requires 1 <= p <= u
    ensures u / p >= 1
  {
    var q := u / p;
    ShrShrinks(u, p);
    assert u == q * p + u % p;
  }

  /** Undoes `u ^ (u << k)` after `n` rounds, for as many low bits as rounds. */
  function UndoLeft(v: U32, k: Shift, n: nat): U32 {
    if n == 0 then v else Xor32(v, UndoLeft(v, k, n - 1) * Pow2(k) % WORD)
  }

  lemma {:induction false} LeftUndoneModulo(u: U32, k: Shift, n: nat)
    requires k >= 1 && n <= 32
    ensures UndoLeft(Xor32(u, u * Pow2(k) % WORD), k, n) % Pow2(n) == u % Pow2(n)
  {
    hide Xor, Pow2;
    var v := Xor32(u, u * Pow2(k) % WORD);
    if n == 0 {
      Pow2Steps(0);
    } else {
      var w := UndoLeft(v, k, n - 1);
      LeftUndoneModulo(u, k, n - 1);
      ShiftedAgree(w, u, n, k);
      LowBitsOfNarrowed(w * Pow2(k), u * Pow2(k), n);
      XorAgain(u, u * Pow2(k) % WORD, w * Pow2(k) % WORD, n);
    }
  }

  lemma LowBitsOfNarrowed(a: int, b: int, n: nat)
    requires n <= 32 && a % Pow2(n) == b % Pow2(n)
    ensures a % WORD % Pow2(n) == b % WORD % Pow2(n)
  {
    hide Pow2;
    Pow2Values();
    Pow2Adds(n, 32 - n);
    NarrowThenLow(a, Pow2(n), Pow2(32 - n));
    NarrowThenLow(b, Pow2(n), Pow2(32 - n));
  }

  lemma NarrowThenLow(a: int, p: nat, q: nat)
    requires p >= 1 && q >= 1 && p * q >= 1
    ensures a % (p * q) % p == a % p
  {
    var d := a / (p * q);
    assert a == d * (p * q) + a % (p * q);
    assert d * (p * q) == d * q * p;
    SameResidue(a, a % (p * q), p, d * q);
  }

  /** An exclusive or is undone by one that agrees with it in the low bits, for those bits. */
  lemma XorAgain(u: U32, b: U32, c: U32, n: nat)
    requires n <= 32 && b % Pow2(n) == c % Pow2(n)
    ensures Xor32(Xor32(u, b), c) % Pow2(n) == u % Pow2(n)
  {
    hide Xor, Pow2;
    Pow2Values();
    var v := Xor32(u, b);
    XorLow(32, n, v, c);
    XorLow(32, n, v, b);
    XorCongruent(n, v, c, b);
    XorTwice(32, u, b);
  }

  lemma LeftUndone(u: U32, k: Shift)
    requires k >= 1
    ensures UndoLeft(Xor32(u, u * Pow2(k) % WORD), k, 32) == u
  {
    hide UndoLeft, Xor32, Pow2;
    LeftUndoneModulo(u, k, 32);
    AllBits(UndoLeft(Xor32(u, u * Pow2(k) % WORD), k, 32), u);
  }

  lemma AllBits(u: U32, v: U32)
    requires u % Pow2(32) == v % Pow2(32)
    ensures u == v
  {
    hide Pow2;
    Pow2Values();
  }

  function UnshiftRight(y: I32, k: nat): I32
    requires k >= 1
  {
    AsI32(UndoRight(AsU32(y), k))
  }

  function UnshiftLeft(y: I32, k: Shift): I32 {
    AsI32(UndoLeft(AsU32(y), k, 32))
  }

  lemma ShiftRightUndone(x: I32, k: Shift)
    requires k >= 1
    ensures UnshiftRight(ShiftRightXor(x, k), k) == x
  {
    hide UndoRight, ShiftRightXor, Xor32, Shr;
    ShiftRightXorBits(x, k);
    RightUndone(AsU32(x), k);
    AsU32Injective(AsI32(AsU32(x)), x);
  }

  lemma ShiftLeftUndone(x: I32, k: Shift)
    requires k >= 1
    ensures UnshiftLeft(ShiftLeftXor(x, k), k) == x
  {
    hide UndoLeft, ShiftLeftXor, Xor32, Pow2;
    ShiftLeftXorBits(x, k);
    LeftUndone(AsU32(x), k);
    AsU32Injective(AsI32(AsU32(x)), x);
  }

  lemma XorShrUndone(x: I32, k: Shift)
    requires k >= 1
    ensures UnshiftRight(XorI32(x, AsI32(Shr(AsU32(x), k))), k) == x
  {
    hide UndoRight, Xor32, Shr;
    RightUndone(AsU32(x), k);
    AsU32Injective(AsI32(AsU32(x)), x);
  }

  // ---- Multiplications, additions, rotations ----------------------------------------------------------------

  /** `i` is the inverse of `m` modulo 2^32. */
  predicate Inverse(m: U32, i: U32) {
    m * i % WORD == 1
  }

  lemma ProductUndone(x: I32, y: I32, m: int, i: int)
    requires m * i % WORD == 1 && y % WORD == x * m % WORD
    ensures y * i % WORD == x % WORD
  {
    ProductCongruent(y, x * m, i);
    var d := m * i / WORD;
    assert m * i == d * WORD + 1;
    assert x * m * i == x * (m * i) == x * d * WORD + x;
    SameResidue(x * m * i, x, WORD, x * d);
  }

  lemma MulUndone(x: I32, m: U32, i: U32)
    requires Inverse(m, i)
    ensures MulNarrow(MulNarrow(x, m), i) == x
  {
    var y := MulNarrow(x, m);
    ProductUndone(x, y, m, i);
    AsU32Injective(MulNarrow(y, i), x);
  }

  /** `u32::rotate_right`. */
  function RotateRight(v: U32, r: Shift): U32 {
    if r == 0 then v else RotateLeft(v, 32 - r)
  }

  lemma RotateUndone(u: U32, r: Shift)
    ensures RotateRight(RotateLeft(u, r), r) == u
  {
    hide Pow2;
    Pow2Values();
    if r == 0 {
      Pow2Steps(0);
      DivUnique(u, Pow2(32), 0, u);
    } else {
      var v, p := RotateLeft(u, r), Pow2(32 - r);
      RotateParts(u, r);
      assert 32 - (32 - r) == r;
      assert RotateLeft(v, 32 - r) == v % Pow2(r) * p + v / Pow2(r) == u / p * p + u % p;
    }
  }

  lemma AddUndone(a: I32, k: U32)
    requires k > 0
    ensures WrappingAdd(WrappingAdd(a, AsI32(k)), AsI32(WORD - k)) == a
  {
    hide WrappingAdd;
    var b := WrappingAdd(a, AsI32(k));
    var q := Carried(a, AsI32(k));
    var p := Carried(b, AsI32(WORD - k));
  }

  lemma Carried(a: I32, b: I32) returns (q: int)
    ensures WrappingAdd(a, b) == a + b + q * WORD
  {
    q := (WrappingAdd(a, b) - a - b) / WORD;
  }

  // ---- The mixers -------------------------------------------------------------------------------------------

  const FMIX32_C1_INVERSE: U32 := 0xb6c9_2f47
  const FMIX32_C2_INVERSE: U32 := 0xa89e_d915
  const ROL_SCRAMBLE_INVERSE: U32 := 0xfb69_9ca5
  const MXS_MULT1_INVERSE: U32 := 0x1d69_e2a5
  const MXS_MULT2_INVERSE: U32 := 0x4302_1123
  const LCG_MULT_INVERSE: U32 := 0xfee0_58c5
  const PCG_MULT_INVERSE: U32 := 0xcc2b_fe9d

  function UnFmix32(v: I32): I32 {
    var s4 := UnshiftRight(v, 16);
    var s3 := MulNarrow(s4, FMIX32_C2_INVERSE);
    var s2 := UnshiftRight(s3, 13);
    var s1 := MulNarrow(s2, FMIX32_C1_INVERSE);
    UnshiftRight(s1, 16)
  }

  function Unscramble(v: I32, rotation: Shift): I32 {
    var z := MulNarrow(v, ROL_SCRAMBLE_INVERSE);
    var y := UnshiftRight(z, 11);
    var x := WrappingAdd(y, AsI32(WORD - PHI));
    AsI32(RotateRight(AsU32(x), rotation))
  }

  function Unmix(v: I32, inverse1: U32, inverse2: U32): I32 {
    var z := MulNarrow(v, inverse2);
    var y := UnshiftRight(z, 15);
    var x := MulNarrow(y, inverse1);
    UnshiftLeft(x, 5)
  }

  function Unxorshift(v: I32, s: XorshiftShifts): I32
    requires s.right >= 1
  {
    UnshiftLeft(UnshiftRight(UnshiftLeft(v, s.left2), s.right), s.left1)
  }

  lemma Fmix32Unmixed(s: I32)
    ensures UnFmix32(Fmix32(s)) == s
  {
    hide UnshiftRight, MulNarrow, XorI32, Shr, AsU32, AsI32;
    var s1 := XorI32(s, AsI32(Shr(AsU32(s), 16)));
    var s2 := MulNarrow(s1, FMIX32_C1);
    var s3 := XorI32(s2, AsI32(Shr(AsU32(s2), 13)));
    var s4 := MulNarrow(s3, FMIX32_C2);
    XorShrUndone(s4, 16);
    MulUndone(s3, FMIX32_C2, FMIX32_C2_INVERSE);
    XorShrUndone(s2, 13);
    MulUndone(s1, FMIX32_C1, FMIX32_C1_INVERSE);
    XorShrUndone(s, 16);
  }

  /** The finalizer and its inverse, step by step in reverse, undo each other. */
  lemma Fmix32IsUndone(s: I32)
    ensures UnFmix32(Fmix32(s)) == s && Fmix32(UnFmix32(s)) == s
  {
    hide UnFmix32, Fmix32;
    Fmix32Unmixed(s);
    Fmix32Permutes();
    var x := Preimage(Fmix32, s);
    Fmix32Unmixed(x);
  }

  lemma SignedFactor(z: I32, m: U32)
    ensures WrappingMul(z, AsI32(m)) == MulNarrow(z, m)
  {
    ProductFits(z, m);
    assert z * AsI32(m) == AsI32(m) * z && z * m == m * z;
    ProductCongruent(AsI32(m), m, z);
  }

  lemma Unscrambled(s: I32, r: Shift)
    ensures Unscramble(RotateScramble(s, r), r) == s
  {
    hide UnshiftRight, MulNarrow, XorI32, Shr, RotateLeft, RotateRight, WrappingAdd, WrappingMul;
    var x := AsI32(RotateLeft(AsU32(s), r));
    var y := WrappingAdd(x, AsI32(PHI));
    var z := XorI32(y, AsI32(Shr(AsU32(y), 11)));
    SignedFactor(z, ROL_SCRAMBLE_MULT);
    MulUndone(z, ROL_SCRAMBLE_MULT, ROL_SCRAMBLE_INVERSE);
    XorShrUndone(y, 11);
    AddUndone(x, PHI);
    RotateUndone(AsU32(s), r);
    AsU32Injective(AsI32(AsU32(s)), s);
  }

  /** So do the rotate scrambler and its inverse, for every rotation. */
  lemma RotateScrambleIsUndone(s: I32, r: Shift)
    ensures Unscramble(RotateScramble(s, r), r) == s && RotateScramble(Unscramble(s, r), r) == s
  {
    hide Unscramble, RotateScramble;
    Unscrambled(s, r);
    RotateScramblePermutes(r);
    var x := Preimage(RotateScrambleBy(r), s);
    Unscrambled(x, r);
  }

  lemma Unmixed(s: I32, m1: U32, m2: U32, i1: U32, i2: U32)
    requires Inverse(m1, i1) && Inverse(m2, i2)
    ensures Unmix(MxsMix(s, m1, m2), i1, i2) == s
  {
    hide UnshiftRight, UnshiftLeft, MulNarrow, ShiftLeftXor, ShiftRightXor;
    var x := ShiftLeftXor(s, 5);
    var y := MulNarrow(x, m1);
    var z := ShiftRightXor(y, 15);
    MulUndone(z, m2, i2);
    ShiftRightUndone(y, 15);
    MulUndone(x, m1, i1);
    ShiftLeftUndone(s, 5);
  }

  lemma InverseOfOdd(m: U32, i: U32)
    requires Inverse(m, i)
    ensures m % 2 == 1
  {
    var q := m * i / WORD;
    assert m * i == q * WORD + 1;
    EvenTimes(m / 2, i);
    ParityClash(m / 2 * i, q);
    assert m == 2 * (m / 2) + m % 2;
  }

  lemma ParityClash(x: int, q: int)
    ensures 2 * x != q * WORD + 1
  {
    assert q * WORD == 2 * (q * 0x8000_0000);
  }

  /** And the multiply-xorshift mixer with any two multipliers that have inverses. */
  lemma MxsIsUndone(s: I32, m1: U32, m2: U32, i1: U32, i2: U32)
    requires Inverse(m1, i1) && Inverse(m2, i2)
    ensures Unmix(MxsMix(s, m1, m2), i1, i2) == s && MxsMix(Unmix(s, i1, i2), m1, m2) == s
  {
    hide Unmix, MxsMix, Inverse;
    Unmixed(s, m1, m2, i1, i2);
    InverseOfOdd(m1, i1);
    InverseOfOdd(m2, i2);
    MxsPermutesExactly(m1, m2);
    var x := Preimage(MxsBy(m1, m2), s);
    Unmixed(x, m1, m2, i1, i2);
  }

  lemma Unxorshifted(x: I32, s: XorshiftShifts)
    requires s.left1 > 0 && s.right > 0 && s.left2 > 0
    ensures Unxorshift(Xorshift(x, s), s) == x
  {
    hide UnshiftLeft, UnshiftRight, ShiftLeftXor, ShiftRightXor;
    var a := ShiftLeftXor(x, s.left1);
    var b := ShiftRightXor(a, s.right);
    ShiftLeftUndone(b, s.left2);
    ShiftRightUndone(a, s.right);
    ShiftLeftUndone(x, s.left1);
  }

  /** A xorshift is undone by undoing its three shifts, the last one first. */
  lemma XorshiftIsUndone(x: I32, s: XorshiftShifts)
    requires s.left1 > 0 && s.right > 0 && s.left2 > 0
    ensures Unxorshift(Xorshift(x, s), s) == x && Xorshift(Unxorshift(x, s), s) == x
  {
    hide Unxorshift, Xorshift;
    Unxorshifted(x, s);
    XorshiftPermutesExactly(s);
    var y := Preimage(XorshiftBy(s), x);
    Unxorshifted(y, s);
  }

  // ---- The generator run backwards --------------------------------------------------------------------------

  function UnLcg(t: I32, inverse: U32, increment: U32): I32
    requires increment > 0
  {
    MulNarrow(WrappingAdd(t, AsI32(WORD - increment)), inverse)
  }

  lemma LcgUndone(s: I32, m: U32, i: U32, increment: U32)
    requires Inverse(m, i) && increment > 0
    ensures UnLcg(LcgStep(s, m, increment), i, increment) == s
  {
    hide WrappingAdd;
    var t := LcgStep(s, m, increment);
    ProductFits(s, m);
    var q := Carried(t, AsI32(WORD - increment));
    var y := WrappingAdd(t, AsI32(WORD - increment));
    BackToProduct(s * m, increment, t, y, q);
    ProductUndone(s, y, m, i);
    AsU32Injective(MulNarrow(y, i), s);
  }

  lemma BackToProduct(p: int, increment: U32, t: I32, y: I32, q: int)
    requires t % WORD == (p + increment) % WORD && increment > 0
    requires y == t + AsI32(WORD - increment) + q * WORD
    ensures y % WORD == p % WORD
  {
    var k := t / WORD - (p + increment) / WORD;
    assert t == p + increment + k * WORD;
    SameResidue(y, p, WORD, k + q + if WORD - increment < 0x8000_0000 then 1 else 0);
  }

  /** The state before a draw, from the state after it. */
  function Retreat(algo: Algorithm, s: I32): I32 {
    match algo
    case 1 => UnLcg(s, LCG_MULT_INVERSE, LCG_INC)
    case 2 => Unxorshift(s, XORSHIFT32_SHIFTS)
    case 3 => WrappingAdd(s, AsI32(WORD - PHI))
    case 4 => WrappingAdd(s, AsI32(WORD - WEYL_ROL_INC))
    case 5 => Unxorshift(WrappingAdd(s, AsI32(WORD - XORSHIFT_ADD_CONST)), XORSHIFT_ADD_SHIFTS)
    case 6 => UnLcg(s, PCG_MULT_INVERSE, PCG_INC)
    case _ => WrappingAdd(s, AsI32(WORD - PHI))
  }

  /** The state behind a word drawn. */
  function Unemit(algo: Algorithm, word: I32): I32
    requires algo != 6
  {
    match algo
    case 3 => UnFmix32(word)
    case 4 => Unscramble(word, ROL7)
    case 7 => Unmix(word, MXS_MULT1_INVERSE, MXS_MULT2_INVERSE)
    case _ => word
  }

  /** Every step of every algorithm is undone by its explicit inverse. */
  lemma DrawIsUndone(algo: Algorithm, s: I32)
    ensures Retreat(algo, Advance(algo, s)) == s
  {
    hide Unxorshift, Xorshift, LcgStep, UnLcg, WrappingAdd;
    match algo
    case 1 => LcgUndone(s, LCG_MULT, LCG_MULT_INVERSE, LCG_INC);
    case 2 => Unxorshifted(s, XORSHIFT32_SHIFTS);
    case 3 => AddUndone(s, PHI);
    case 4 => AddUndone(s, WEYL_ROL_INC);
    case 5 =>
      AddUndone(Xorshift(s, XORSHIFT_ADD_SHIFTS), XORSHIFT_ADD_CONST);
      Unxorshifted(s, XORSHIFT_ADD_SHIFTS);
    case 6 => LcgUndone(s, PCG_MULT, PCG_MULT_INVERSE, PCG_INC);
    case _ => AddUndone(s, PHI);
  }

  lemma WordIsUndone(algo: Algorithm, s: I32)
    requires algo != 6
    ensures Unemit(algo, Emit(algo, s)) == s
  {
    hide UnFmix32, Fmix32, Unscramble, RotateScramble, Unmix, MxsMix;
    match algo
    case 3 => Fmix32Unmixed(s);
    case 4 => Unscrambled(s, ROL7);
    case 7 => Unmixed(s, MXS_MULT1, MXS_MULT2, MXS_MULT1_INVERSE, MXS_MULT2_INVERSE);
    case _ =>
  }

  /** `n` draws taken back. */
  function Rewound(algo: Algorithm, s: I32, n: nat): I32
    decreases n
  {
    if n == 0 then s else Rewound(algo, Retreat(algo, s), n - 1)
  }

  lemma {:induction false} DrawsAreUndone(algo: Algorithm, seed: I32, n: nat)
    ensures Rewound(algo, Iterate(AdvanceBy(algo), n, seed), n) == seed
    decreases n
  {
    hide Advance, Retreat, Iterate, ByteAt, Emit;
    if n > 0 {
      var before := Iterate(AdvanceBy(algo), n - 1, seed);
      DrawStep(algo, seed, n - 1);
      DrawIsUndone(algo, before);
      DrawsAreUndone(algo, seed, n - 1);
    } else {
      NoDraw(algo, seed);
    }
  }

  /** Except for algorithm 6, any one word drawn, wherever it stands in the stream, gives the seed away. */
  lemma SeedFromAnyWord(algo: Algorithm, seed: I32, n: nat)
    requires algo != 6
    ensures Rewound(algo, Unemit(algo, Output(AdvanceBy(algo), EmitBy(algo), seed, n)), n + 1) == seed
  {
    hide Advance, Retreat, Emit, Unemit, Iterate, Rewound;
    WordIsUndone(algo, Iterate(AdvanceBy(algo), n + 1, seed));
    DrawsAreUndone(algo, seed, n + 1);
  }
}
