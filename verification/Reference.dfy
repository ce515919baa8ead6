/**
  The seven generators of `crates/rdlp-crypto/src/prng.rs` in plain unsigned 32-bit arithmetic, every constant
  written out, and the signed, widened code shown to compute exactly these.
*/
module Reference {
  import opened Wrappers
  import opened Bits
  import opened Words
  import opened JsInt
  import opened Prng

  /** `u ^ (u >> k)`. */
  function FoldRight(u: U32, k: Shift): U32 {
    Xor32(u, Shr(u, k))
  }

  /** `u ^ (u << k)`. */
  function FoldLeft(u: U32, k: Shift): U32 {
    Xor32(u, u * Pow2(k) % WORD)
  }

  function Times(u: U32, m: U32): U32 {
    u * m % WORD
  }

  function Plus(u: U32, k: U32): U32 {
    (u + k) % WORD
  }

  /** The state after a draw from state `u`. */
  function NextState(algo: nat, u: U32): U32 {
    match algo
    case 1 => Plus(Times(u, 1_664_525), 1_013_904_223)
    case 2 => FoldLeft(FoldRight(FoldLeft(u, 13), 17), 5)
    case 4 => Plus(u, 0x6d2b_79f5)
    case 5 => Plus(FoldLeft(FoldRight(FoldLeft(u, 7), 9), 8), 0xa5a5_a5a5)
    case 6 => Plus(Times(u, 0x2c92_77b5), 0xac56_4b05)
    case _ => Plus(u, 0x9e37_79b9)
  }

  /** The word drawn from state `u`. */
  function WordOf(algo: nat, u: U32): U32 {
    match algo
    case 3 => FoldRight(Times(FoldRight(Times(FoldRight(u, 16), 0x85eb_ca77), 13), 0xc2b2_ae3d), 16)
    case 4 => Times(FoldRight(Plus(RotateLeft(u, 7), 0x9e37_79b9), 11), 0x27d4_eb2d)
    case 6 => ByTop(u); Shr(FoldRight(u, 18), Shr(u, 27))
    case 7 => Times(FoldRight(Times(FoldLeft(u, 5), 0x7feb_352d), 15), 0x846c_a68b)
    case _ => u
  }

  /** The state after `n` draws. */
  function StateAfter(algo: nat, seed: U32, n: nat): U32 {
    if n == 0 then seed else NextState(algo, StateAfter(algo, seed, n - 1))
  }

  /** The n-th byte drawn, counted from zero: the low byte of the word. */
  function NthByte(algo: nat, seed: U32, n: nat): Byte {
    WordOf(algo, StateAfter(algo, seed, n + 1)) % 0x100
  }

  lemma ByTop(u: U32)
    ensures 0 <= Shr(u, 27) < 32
  {
    QuotientFits(u, 27);
    assert Pow2(5) == 32;
  }

  // ---- The code computes the reference ----------------------------------------------------------------------

  lemma MulNarrowIsTimes(s: I32, m: U32)
    ensures AsU32(MulNarrow(s, m)) == Times(AsU32(s), m)
  {
    ProductFits(s, m);
    ProductCongruent(s, AsU32(s), m);
  }

  lemma WrappingMulIsTimes(s: I32, m: U32)
    ensures AsU32(WrappingMul(s, AsI32(m))) == Times(AsU32(s), m)
  {
    ProductCongruent(s, AsU32(s), AsI32(m));
    ProductCongruent(AsI32(m), m, AsU32(s));
    assert AsU32(s) * AsI32(m) == AsI32(m) * AsU32(s) && AsU32(s) * m == m * AsU32(s);
  }

  lemma WrappingAddIsPlus(s: I32, k: U32)
    ensures AsU32(WrappingAdd(s, AsI32(k))) == Plus(AsU32(s), k)
  {
    var q := s / WORD;
    assert s == q * WORD + AsU32(s);
    SameResidue(s + AsI32(k), AsU32(s) + k, WORD, q - if k < 0x8000_0000 then 0 else 1);
  }

  lemma LcgIsTimesPlus(s: I32, m: U32, k: U32)
    ensures AsU32(LcgStep(s, m, k)) == Plus(Times(AsU32(s), m), k)
  {
    ProductFits(s, m);
    ProductCongruent(s, AsU32(s), m);
    NarrowedSum(s * m, Times(AsU32(s), m), k);
  }

  lemma NarrowedSum(a: int, b: U32, k: int)
    requires a % WORD == b
    ensures (a + k) % WORD == (b + k) % WORD
  {
  }

  lemma XorshiftIsFolds(s: I32, shifts: XorshiftShifts)
    ensures AsU32(Xorshift(s, shifts))
         == FoldLeft(FoldRight(FoldLeft(AsU32(s), shifts.left1), shifts.right), shifts.left2)
  {
    hide Xor32, Shr, Xorshift, AsU32;
    WidenedXorshiftIsXorshift(s, shifts);
  }

  lemma XorShrIsFold(s: I32, k: Shift)
    ensures AsU32(XorI32(s, AsI32(Shr(AsU32(s), k)))) == FoldRight(AsU32(s), k)
  {
    hide Xor32, Shr;
  }

  lemma Fmix32IsReference(s: I32)
    ensures AsU32(Fmix32(s)) == WordOf(3, AsU32(s))
  {
    hide MulNarrow, XorI32, Shr, AsU32, AsI32, FoldRight, Times;
    var s1 := XorI32(s, AsI32(Shr(AsU32(s), 16)));
    var s2 := MulNarrow(s1, FMIX32_C1);
    var s3 := XorI32(s2, AsI32(Shr(AsU32(s2), 13)));
    XorShrIsFold(s, 16);
    MulNarrowIsTimes(s1, FMIX32_C1);
    XorShrIsFold(s2, 13);
    MulNarrowIsTimes(s3, FMIX32_C2);
    XorShrIsFold(MulNarrow(s3, FMIX32_C2), 16);
  }

  lemma ScrambleIsReference(s: I32)
    ensures AsU32(RotateScramble(s, ROL7)) == WordOf(4, AsU32(s))
  {
    hide WrappingMul, WrappingAdd, XorI32, Shr, AsU32, FoldRight, Times, Plus, RotateLeft;
    var x := AsI32(RotateLeft(AsU32(s), ROL7));
    var y := WrappingAdd(x, AsI32(PHI));
    WrappingAddIsPlus(x, PHI);
    XorShrIsFold(y, 11);
    WrappingMulIsTimes(XorI32(y, AsI32(Shr(AsU32(y), 11))), ROL_SCRAMBLE_MULT);
  }

  lemma PcgIsReference(s: I32)
    ensures AsU32(PcgXshRs(s)) == WordOf(6, AsU32(s))
  {
    hide Xor32, Shr, ShiftRightXor;
    ByTop(AsU32(s));
    ShiftRightXorBits(s, 18);
  }

  lemma MixIsReference(s: I32)
    ensures AsU32(MxsMix(s, MXS_MULT1, MXS_MULT2)) == WordOf(7, AsU32(s))
  {
    hide MulNarrow, ShiftLeftXor, ShiftRightXor, Shr, AsU32, Times, Xor32, Pow2;
    var x := ShiftLeftXor(s, 5);
    var y := MulNarrow(x, MXS_MULT1);
    ShiftLeftXorBits(s, 5);
    MulNarrowIsTimes(x, MXS_MULT1);
    ShiftRightXorBits(y, 15);
    MulNarrowIsTimes(ShiftRightXor(y, 15), MXS_MULT2);
  }
}
