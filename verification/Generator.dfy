/**
  The seven-algorithm byte generator of `crates/rdlp-crypto/src/prng.rs`: what each algorithm's stream of
  states and bytes looks like over whole runs.
*/
module Generator {
  import opened Wrappers
  import opened Bits
  import opened Words
  import opened JsInt
  import opened Prng
  import opened FullPeriod
  import opened Pigeonhole
  import Reference

  type Algorithm = a: nat | 1 <= a <= 7 witness 1

  /** The state after one draw. */
  function Advance(algo: Algorithm, s: I32): I32 {
    match algo
    case 1 => LcgStep(s, LCG_MULT, LCG_INC)
    case 2 => Xorshift(s, XORSHIFT32_SHIFTS)
    case 3 => WeylStep(s, PHI)
    case 4 => WeylStep(s, WEYL_ROL_INC)
    case 5 => WrappingAdd(Xorshift(s, XORSHIFT_ADD_SHIFTS), AsI32(XORSHIFT_ADD_CONST))
    case 6 => LcgStep(s, PCG_MULT, PCG_INC)
    case _ => WeylStep(s, PHI)
  }

  /** The word drawn, from the state after the draw. */
  function Emit(algo: Algorithm, s: I32): I32 {
    match algo
    case 3 => Fmix32(s)
    case 4 => RotateScramble(s, ROL7)
    case 6 => PcgXshRs(s)
    case 7 => MxsMix(s, MXS_MULT1, MXS_MULT2)
    case _ => s
  }

  function AdvanceBy(algo: Algorithm): I32 -> I32 {
    (s: I32) => Advance(algo, s)
  }

  function EmitBy(algo: Algorithm): I32 -> I32 {
    (s: I32) => Emit(algo, s)
  }

  /** The n-th byte drawn from a seed, counted from zero. */
  function ByteAt(algo: Algorithm, seed: I32, n: nat): Byte {
    LowByte(Output(AdvanceBy(algo), EmitBy(algo), seed, n))
  }

  lemma DrawStep(algo: Algorithm, seed: I32, n: nat)
    ensures Iterate(AdvanceBy(algo), n + 1, seed) == Advance(algo, Iterate(AdvanceBy(algo), n, seed))
    ensures ByteAt(algo, seed, n) == LowByte(Emit(algo, Iterate(AdvanceBy(algo), n + 1, seed)))
  {
  }

  /** Each step of the code, on signed words, is the unsigned one. */
  lemma AdvanceIsReference(algo: Algorithm, s: I32)
    ensures AsU32(Advance(algo, s)) == Reference.NextState(algo, AsU32(s))
  {
    hide LcgStep, Xorshift, WrappingAdd, AsU32;
    hide Reference.FoldLeft, Reference.FoldRight, Reference.Times, Reference.Plus;
    match algo
    case 1 => Reference.LcgIsTimesPlus(s, LCG_MULT, LCG_INC);
    case 2 => Reference.XorshiftIsFolds(s, XORSHIFT32_SHIFTS);
    case 3 => Reference.WrappingAddIsPlus(s, PHI);
    case 4 => Reference.WrappingAddIsPlus(s, WEYL_ROL_INC);
    case 5 =>
      Reference.XorshiftIsFolds(s, XORSHIFT_ADD_SHIFTS);
      Reference.WrappingAddIsPlus(Xorshift(s, XORSHIFT_ADD_SHIFTS), XORSHIFT_ADD_CONST);
    case 6 => Reference.LcgIsTimesPlus(s, PCG_MULT, PCG_INC);
    case _ => Reference.WrappingAddIsPlus(s, PHI);
  }

  /** So is each word drawn. */
  lemma EmitIsReference(algo: Algorithm, s: I32)
    ensures AsU32(Emit(algo, s)) == Reference.WordOf(algo, AsU32(s))
  {
    hide Fmix32, RotateScramble, PcgXshRs, MxsMix, AsU32;
    match algo
    case 3 => Reference.Fmix32IsReference(s);
    case 4 => Reference.ScrambleIsReference(s);
    case 6 => Reference.PcgIsReference(s);
    case 7 => Reference.MixIsReference(s);
    case _ =>
  }

  lemma {:induction false} StatesAreReference(algo: Algorithm, seed: I32, n: nat)
    ensures AsU32(Iterate(AdvanceBy(algo), n, seed)) == Reference.StateAfter(algo, AsU32(seed), n)
    decreases n
  {
    hide Advance, Reference.NextState, AsU32, Iterate, ByteAt, Emit;
    if n > 0 {
      StatesAreReference(algo, seed, n - 1);
      DrawStep(algo, seed, n - 1);
      AdvanceIsReference(algo, Iterate(AdvanceBy(algo), n - 1, seed));
    } else {
      NoDraw(algo, seed);
    }
  }

  lemma NoDraw(algo: Algorithm, seed: I32)
    ensures Iterate(AdvanceBy(algo), 0, seed) == seed
  {
  }

  lemma LowByteOfWord(x: I32)
    ensures LowByte(x) == AsU32(x) % 0x100
  {
  }

  /** Byte for byte the stream is that of the unsigned reference. */
  lemma BytesAreReference(algo: Algorithm, seed: I32, n: nat)
    ensures ByteAt(algo, seed, n) == Reference.NthByte(algo, AsU32(seed), n)
  {
    hide Advance, Emit, Iterate, LowByte, AsU32, Reference.WordOf, Reference.StateAfter;
    var s := Iterate(AdvanceBy(algo), n + 1, seed);
    StatesAreReference(algo, seed, n + 1);
    EmitIsReference(algo, s);
    LowByteOfWord(Emit(algo, s));
  }

  class ByteGenerator {
    var state: I32
    const algoId: Algorithm
    ghost const seed: I32
    ghost var drawn: nat

    /** The state is the one reached from the seed by the draws made so far. */
    ghost predicate Valid()
      reads this
    {
      state == Iterate(AdvanceBy(algoId), drawn, seed)
    }

    constructor (algoId: Algorithm, seed: I32)
      ensures Valid()
      ensures this.algoId == algoId && this.seed == seed && drawn == 0
    {
      this.state := seed;
      this.algoId := algoId;
      this.seed := seed;
      this.drawn := 0;
    }

    /** Only the identifiers 1 to 7 name an algorithm. */
    static method New(algoId: Byte, seed: I32) returns (g: Option<ByteGenerator>)
      ensures g.Some? <==> 1 <= algoId <= 7
      ensures g.Some? ==>
        && fresh(g.value) && g.value.Valid()
        && g.value.algoId == algoId && g.value.seed == seed && g.value.drawn == 0
    {
      if algoId < 1 || algoId > 7 {
        return None;
      }
      var made := new ByteGenerator(algoId, seed);
      return Some(made);
    }

    method NextByte() returns (b: Byte)
      requires Valid()
      modifies this
      ensures Valid()
      ensures drawn == old(drawn) + 1
      ensures b == ByteAt(algoId, seed, old(drawn)) == Reference.NthByte(algoId, AsU32(seed), old(drawn))
    {
      hide Advance, Emit, Iterate, ByteAt;
      hide Reference.NthByte;
      var result: I32;
      match algoId {
        case 1 => result := Lcg();
        case 2 => result := Xorshift32();
        case 3 => result := WeylFmix32();
        case 4 => result := WeylRol7();
        case 5 => result := XorshiftAdd();
        case 6 => result := LcgPcg();
        case _ => result := WeylMxs();
      }
      DrawStep(algoId, seed, drawn);
      BytesAreReference(algoId, seed, drawn);
      drawn := drawn + 1;
      b := result % 0x100;
    }

    method Lcg() returns (r: I32)
      modifies this`state
      ensures state == Advance(1, old(state)) && r == Emit(1, state)
    {
      state := LcgStep(state, LCG_MULT, LCG_INC);
      r := state;
    }

    method Xorshift32() returns (r: I32)
      modifies this`state
      ensures state == Advance(2, old(state)) && r == Emit(2, state)
    {
      state := Xorshift(state, XORSHIFT32_SHIFTS);
      r := state;
    }

    method WeylFmix32() returns (r: I32)
      modifies this`state
      ensures state == Advance(3, old(state)) && r == Emit(3, state)
    {
      state := WeylStep(state, PHI);
      r := Fmix32(state);
    }

    method WeylRol7() returns (r: I32)
      modifies this`state
      ensures state == Advance(4, old(state)) && r == Emit(4, state)
    {
      state := WeylStep(state, WEYL_ROL_INC);
      r := RotateScramble(state, ROL7);
    }

    method XorshiftAdd() returns (r: I32)
      modifies this`state
      ensures state == Advance(5, old(state)) && r == Emit(5, state)
    {
      state := WrappingAdd(Xorshift(state, XORSHIFT_ADD_SHIFTS), AsI32(XORSHIFT_ADD_CONST));
      r := state;
    }

    method LcgPcg() returns (r: I32)
      modifies this`state
      ensures state == Advance(6, old(state)) && r == Emit(6, state)
    {
      state := LcgStep(state, PCG_MULT, PCG_INC);
      r := PcgXshRs(state);
    }

    method WeylMxs() returns (r: I32)
      modifies this`state
      ensures state == Advance(7, old(state)) && r == Emit(7, state)
    {
      state := WeylStep(state, PHI);
      r := MxsMix(state, MXS_MULT1, MXS_MULT2);
    }
  }

  // ---- The states -----------------------------------------------------------------------------------------

  lemma SameIterates(f: I32 -> I32, g: I32 -> I32)
    requires (forall s: I32 :: f(s) == g(s)) && FullCycle(f)
    ensures FullCycle(g)
  {
    forall s: I32, n: nat ensures Iterate(g, n, s) == s <==> n % WORD == 0 {
      IteratesAgree(f, g, n, s);
    }
  }

  lemma {:induction false} IteratesAgree(f: I32 -> I32, g: I32 -> I32, n: nat, s: I32)
    requires forall s: I32 :: f(s) == g(s)
    ensures Iterate(f, n, s) == Iterate(g, n, s)
    decreases n
  {
    if n > 0 {
      IteratesAgree(f, g, n - 1, s);
    }
  }

  /** The congruential and the Weyl algorithms run through every state; algorithm 2 cannot, it fixes zero. */
  lemma StatesCycleExactly(algo: Algorithm)
    requires algo != 5
    ensures FullCycle(AdvanceBy(algo)) <==> algo != 2
  {
    if algo == 1 {
      LcgFullCycle(LCG_MULT, LCG_INC);
      SameIterates(LcgBy(LCG_MULT, LCG_INC), AdvanceBy(algo));
    } else if algo == 2 {
      XorshiftOfZero(XORSHIFT32_SHIFTS);
      assert Iterate(AdvanceBy(2), 0, 0) == 0;
      assert Iterate(AdvanceBy(2), 1, 0) == AdvanceBy(2)(Iterate(AdvanceBy(2), 0, 0));
    } else if algo == 6 {
      LcgFullCycle(PCG_MULT, PCG_INC);
      SameIterates(LcgBy(PCG_MULT, PCG_INC), AdvanceBy(algo));
    } else if algo == 4 {
      WeylFullCycle(WEYL_ROL_INC);
      SameIterates(WeylBy(WEYL_ROL_INC), AdvanceBy(algo));
    } else {
      WeylFullCycle(PHI);
      SameIterates(WeylBy(PHI), AdvanceBy(algo));
    }
  }

  /** No draw of any algorithm forgets its state. */
  lemma AdvancePermutes(algo: Algorithm)
    ensures Injective(AdvanceBy(algo))
  {
    if algo == 2 {
      XorshiftPermutesExactly(XORSHIFT32_SHIFTS);
      CarryOver(XorshiftBy(XORSHIFT32_SHIFTS), AdvanceBy(algo));
    } else if algo == 5 {
      XorshiftPermutesExactly(XORSHIFT_ADD_SHIFTS);
      forall x: I32, y: I32 | Advance(5, x) == Advance(5, y) ensures x == y {
        var f := XorshiftBy(XORSHIFT_ADD_SHIFTS);
        WrappingAddInjective(f(x), f(y), AsI32(XORSHIFT_ADD_CONST));
      }
    } else {
      StatesCycleExactly(algo);
      forall x: I32, y: I32 | AdvanceBy(algo)(x) == AdvanceBy(algo)(y) ensures x == y {
        FullCycleInjective(AdvanceBy(algo), x, y);
      }
    }
  }

  lemma CarryOver(f: I32 -> I32, g: I32 -> I32)
    requires (forall s: I32 :: f(s) == g(s)) && Injective(f)
    ensures Injective(g)
  {
    forall x: I32, y: I32 | g(x) == g(y) ensures x == y {
      assert f(x) == f(y);
    }
  }

  lemma {:induction false} Rewind(f: I32 -> I32, s: I32, i: nat, j: nat)
    requires Injective(f) && i <= j && Iterate(f, i, s) == Iterate(f, j, s)
    ensures Iterate(f, j - i, s) == s
    decreases i
  {
    if i > 0 {
      assert f(Iterate(f, i - 1, s)) == f(Iterate(f, j - 1, s));
      Rewind(f, s, i - 1, j - 1);
    }
  }

  function StateAt(f: I32 -> I32, s: I32): int -> int {
    (n: int) => if n < 0 then 0 else Iterate(f, n, s)
  }

  /** A permutation of the words brings every seed back within `words` steps, their number. */
  lemma ComesBack(f: I32 -> I32, s: I32, words: nat) returns (n: nat)
    requires Injective(f) && words == WORD
    ensures 1 <= n <= words && Iterate(f, n, s) == s
  {
    var steps, h := Range(0, words + 1), StateAt(f, s);
    RangeIs(0, words + 1);
    RangeIs(MIN, words);
    if InjectiveOn(steps, h) {
      ImageSize(steps, h);
      SubsetSize(Image(steps, h), Range(MIN, words));
      assert false;
    } else {
      var i, j :| i in steps && j in steps && h(i) == h(j) && i < j;
      Rewind(f, s, i, j);
      n := j - i;
    }
  }

  /** Every algorithm's states are purely periodic, with a period of at most 2^32, from every seed. */
  lemma SeedComesBack(algo: Algorithm, seed: I32) returns (n: nat)
    ensures 1 <= n <= WORD && Iterate(AdvanceBy(algo), n, seed) == seed
  {
    AdvancePermutes(algo);
    n := ComesBack(AdvanceBy(algo), seed, WORD);
  }

  lemma {:induction false} ZeroIsApart(f: I32 -> I32, seed: I32, n: nat)
    requires forall x: I32 :: f(x) == 0 <==> x == 0
    ensures Iterate(f, n, seed) == 0 <==> seed == 0
    decreases n
  {
    if n > 0 {
      ZeroIsApart(f, seed, n - 1);
    }
  }

  /** Algorithm 2 never reaches zero from a nonzero seed, and never leaves it. */
  lemma XorshiftStaysNonzero(seed: I32, n: nat)
    ensures Iterate(AdvanceBy(2), n, seed) == 0 <==> seed == 0
  {
    forall x: I32 ensures AdvanceBy(2)(x) == 0 <==> x == 0 {
      XorshiftAvoidsZero(x, XORSHIFT32_SHIFTS);
    }
    ZeroIsApart(AdvanceBy(2), seed, n);
  }

  // ---- The outputs ----------------------------------------------------------------------------------------

  lemma TopBits(u: U32)
    requires u >= 0xF800_0000
    ensures Shr(u, 27) % 32 == 31
  {
    Pow2Adds(27, 5);
    Pow2Values();
    assert Pow2(5) == 32;
    DivUnique(u, 0x800_0000, 31, u - 31 * 0x800_0000);
  }

  lemma OneBitLeft(u: U32, shift: nat)
    requires shift == 31
    ensures Shr(u, shift) <= 1
  {
    QuotientFits(u, shift);
    assert Pow2(32 - shift) == 2;
  }

  lemma TopStatesEmitABit(s: I32)
    requires -8 <= s < 0
    ensures 0 <= PcgXshRs(s) <= 1
  {
    TopBits(AsU32(s));
    OneBitLeft(AsU32(ShiftRightXor(s, 18)), Shr(AsU32(s), 27) % 32);
  }

  /** Every output function but the variable-shift one permutes the words. */
  lemma EmitPermutesExactly(algo: Algorithm)
    ensures Injective(EmitBy(algo)) <==> algo != 6
  {
    if algo == 3 {
      Fmix32Permutes();
      CarryOver(Fmix32, EmitBy(algo));
    } else if algo == 4 {
      RotateScramblePermutes(ROL7);
      CarryOver(RotateScrambleBy(ROL7), EmitBy(algo));
    } else if algo == 7 {
      MxsPermutesExactly(MXS_MULT1, MXS_MULT2);
      CarryOver(MxsBy(MXS_MULT1, MXS_MULT2), EmitBy(algo));
    } else if algo == 6 {
      TopStatesEmitABit(-1);
      TopStatesEmitABit(-2);
      TopStatesEmitABit(-3);
      var g := EmitBy(6);
      assert g(-1) == g(-2) || g(-1) == g(-3) || g(-2) == g(-3);
    } else {
      CarryOver(Identity, EmitBy(algo));
    }
  }

  /** Algorithms 1, 3, 4 and 7: any 2^32 consecutive draws are every word, each exactly once. */
  lemma EveryWordDrawnOnce(algo: Algorithm, seed: I32, k: nat, v: I32) returns (n: nat)
    requires algo in {1, 3, 4, 7}
    ensures k <= n < k + WORD && Output(AdvanceBy(algo), EmitBy(algo), seed, n) == v
    ensures forall m: nat :: k <= m < k + WORD && Output(AdvanceBy(algo), EmitBy(algo), seed, m) == v ==> m == n
  {
    StatesCycleExactly(algo);
    EmitPermutesExactly(algo);
    n := EveryWordOnce(AdvanceBy(algo), EmitBy(algo), seed, k, v);
  }

  /** The draws among 2^32 consecutive ones that produce the byte `b`. */
  ghost function DrawsOf(algo: Algorithm, seed: I32, k: nat, b: Byte): set<int> {
    set n | n in Range(k, WORD) && n >= 0 && ByteAt(algo, seed, n) == b
  }

  /** Algorithms 1, 3, 4 and 7: any 2^32 consecutive bytes hold each byte value exactly 2^24 times. */
  lemma BytesEquallyOften(algo: Algorithm, seed: I32, k: nat, b: Byte)
    requires algo in {1, 3, 4, 7}
    ensures |DrawsOf(algo, seed, k, b)| == 0x100_0000
  {
    StatesCycleExactly(algo);
    EmitPermutesExactly(algo);
    var f, g := AdvanceBy(algo), EmitBy(algo);
    EveryByteEquallyOften(f, g, seed, k, b);
    RangeIs(k, WORD);
    assert DrawsOf(algo, seed, k, b) == StepsEmitting(f, g, seed, k, b);
  }
}
