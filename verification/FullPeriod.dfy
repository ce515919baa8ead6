/**
  The cycles of the generators of `crates/rdlp-crypto/src/prng.rs`: when a linear congruential step or a
  Weyl step runs through all 2^32 words, and what that makes of the mixed outputs.
*/
module FullPeriod {
  import opened Wrappers
  import opened Bits
  import opened Words
  import opened JsInt
  import opened Prng
  import opened Pigeonhole

  function Iterate(f: I32 -> I32, n: nat, s: I32): I32 {
    if n == 0 then s else f(Iterate(f, n - 1, s))
  }

  lemma {:induction false} IterateAdds(f: I32 -> I32, m: nat, n: nat, s: I32)
    ensures Iterate(f, m + n, s) == Iterate(f, n, Iterate(f, m, s))
    decreases n
  {
    if n > 0 {
      IterateAdds(f, m, n - 1, s);
    }
  }

  /** From every seed the sequence comes back after 2^32 steps and never sooner. */
  ghost predicate FullCycle(f: I32 -> I32) {
    forall s: I32, n: nat :: Iterate(f, n, s) == s <==> n % WORD == 0
  }

  // ---- Powers and geometric sums --------------------------------------------------------------------------

  /** 1 + a + ... + a^(n-1). */
  function Geometric(a: nat, n: nat): nat {
    if n == 0 then 0 else 1 + a * Geometric(a, n - 1)
  }

  lemma {:induction false} GeometricAdds(a: nat, m: nat, n: nat)
    ensures Geometric(a, m + n) == Geometric(a, m) + (1 + (a - 1) * Geometric(a, m)) * Geometric(a, n)
    decreases m
  {
    if m == 0 {
      assert (1 + (a - 1) * 0) * Geometric(a, n) == Geometric(a, n);
    } else {
      GeometricAdds(a, m - 1, n);
      GeometricStep(a, Geometric(a, m - 1), Geometric(a, n), Geometric(a, m - 1 + n));
    }
  }

  lemma GeometricStep(a: nat, g: nat, h: nat, sum: nat)
    requires sum == g + (1 + (a - 1) * g) * h
    ensures 1 + a * sum == (1 + a * g) + (1 + (a - 1) * (1 + a * g)) * h
  {
    var b := a - 1;
    assert a * ((1 + b * g) * h) == (a + b * (a * g)) * h by {
      assert a * (1 + b * g) == a + b * (a * g);
      assert a * ((1 + b * g) * h) == (a * (1 + b * g)) * h;
    }
    assert 1 + b * (1 + a * g) == a + b * (a * g);
  }

  lemma {:induction false} GeometricParity(a: nat, n: nat)
    requires a % 2 == 1
    ensures Geometric(a, n) % 2 == n % 2
    decreases n
  {
    if n > 0 {
      GeometricParity(a, n - 1);
      var g := Geometric(a, n - 1);
      OddProduct(g, a);
      assert a * g == g * a;
      Successor(g * a, n - 1);
    }
  }

  lemma Successor(x: int, n: int)
    requires x % 2 == n % 2
    ensures (1 + x) % 2 == (1 + n) % 2
  {
  }

  /** Over twice the length the sum doubles, up to an odd factor. */
  lemma GeometricDoubles(a: nat, h: nat) returns (q: nat)
    requires a % 4 == 1
    ensures q % 2 == 1 && Geometric(a, h + h) == 2 * (Geometric(a, h) * q)
  {
    var g, w := Geometric(a, h), a / 4 * Geometric(a, h);
    q := 1 + 2 * w;
    GeometricAdds(a, h, h);
    DoublingAlgebra(a, a / 4, g, w);
  }

  lemma DoublingAlgebra(a: int, b: int, g: int, w: int)
    requires a == 4 * b + 1 && w == b * g
    ensures g + (1 + (a - 1) * g) * g == 2 * (g * (1 + 2 * w))
  {
    assert (a - 1) * g == 4 * w;
    assert (1 + 4 * w) * g == g + 4 * (w * g);
    assert g * (1 + 2 * w) == g + 2 * (w * g);
  }

  /** For a multiplier that is 1 modulo 4, the geometric sum has exactly the factors of two of its length. */
  lemma {:induction false} GeometricTwos(a: nat, n: nat, k: nat)
    requires a % 4 == 1
    ensures Geometric(a, n) % Pow2(k) == 0 <==> n % Pow2(k) == 0
    decreases k
  {
    hide Geometric, Pow2;
    Pow2Steps(k);
    if k > 0 {
      var p := Pow2(k - 1);
      GeometricParity(a, n);
      if n % 2 == 1 {
        OddIndivisible(n, p);
        OddIndivisible(Geometric(a, n), p);
      } else {
        var h := n / 2;
        GeometricTwos(a, h, k - 1);
        LowDigit(n, h, p);
        var q := GeometricDoubles(a, h);
        var g := Geometric(a, h);
        LowDigit(2 * (g * q), g * q, p);
        OddFactor(g, q, k - 1);
      }
    }
  }

  lemma OddIndivisible(n: int, p: nat)
    requires n % 2 == 1 && p >= 1
    ensures n % (2 * p) != 0
  {
    LowDigit(n, n / 2, p);
  }

  lemma OddFactor(g: int, q: int, k: nat)
    requires q % 2 == 1
    ensures g * q % Pow2(k) == 0 <==> g % Pow2(k) == 0
  {
    if g % Pow2(k) == 0 {
      var m := g / Pow2(k);
      assert g == m * Pow2(k);
      assert g * q == m * q * Pow2(k);
      DivUnique(g * q, Pow2(k), m * q, 0);
    }
    if g * q % Pow2(k) == 0 {
      OddCancels(g, q, k);
    }
  }

  // ---- The linear congruential generator ------------------------------------------------------------------

  function LcgBy(a: U32, c: U32): I32 -> I32 {
    (s: I32) => LcgStep(s, a, c)
  }

  /** The n-th state in closed form: the seed plus ((a - 1) s + c) geometric steps. */
  lemma {:induction false} LcgClosedForm(a: U32, c: U32, n: nat, s: I32)
    ensures Iterate(LcgBy(a, c), n, s) % WORD == (s + ((a - 1) * s + c) * Geometric(a, n)) % WORD
    decreases n
  {
    var t := (a - 1) * s + c;
    if n == 0 {
      assert t * 0 == 0;
    } else {
      LcgClosedForm(a, c, n - 1, s);
      var g := Geometric(a, n - 1);
      LcgCongruent(Iterate(LcgBy(a, c), n - 1, s), s + t * g, a, c);
      ClosedFormStep(a, c, s, t, g);
    }
  }

  lemma LcgCongruent(x: I32, y: int, a: U32, c: U32)
    requires x % WORD == y % WORD
    ensures LcgStep(x, a, c) % WORD == (y * a + c) % WORD
  {
    ProductCongruent(x, y, a);
    AddCongruent(x * a, y * a, c);
  }

  lemma AddCongruent(x: int, y: int, c: int)
    requires x % WORD == y % WORD
    ensures (x + c) % WORD == (y + c) % WORD
  {
  }

  lemma ClosedFormStep(a: int, c: int, s: int, t: int, g: int)
    requires t == (a - 1) * s + c
    ensures (s + t * g) * a + c == s + t * (1 + a * g)
  {
    Distribute(s, t * g, a);
    assert t * g * a == t * (a * g);
    assert (a - 1) * s == a * s - s;
    assert t * (1 + a * g) == t + t * (a * g);
  }

  lemma LcgReturns(a: U32, c: U32, n: nat, s: I32)
    requires a % 4 == 1 && c % 2 == 1
    ensures Iterate(LcgBy(a, c), n, s) == s <==> n % WORD == 0
  {
    var d := Distance(a, c, n, s);
    ReturnsIff(Iterate(LcgBy(a, c), n, s), s, d);
  }

  /** How far `n` steps lead from the seed. */
  lemma Distance(a: U32, c: U32, n: nat, s: I32) returns (d: int)
    requires a % 4 == 1 && c % 2 == 1
    ensures Iterate(LcgBy(a, c), n, s) % WORD == (s + d) % WORD
    ensures d % WORD == 0 <==> n % WORD == 0
  {
    LcgClosedForm(a, c, n, s);
    var t := (a - 1) * s + c;
    d := t * Geometric(a, n);
    OddMultiplier(a);
    OddSlope(a, c, s);
    OddTimesGeometric(t, a, n);
  }

  lemma OddMultiplier(a: int)
    requires a % 4 == 1
    ensures a % 2 == 1
  {
    DivUnique(a, 2, 2 * (a / 4), 1);
  }

  lemma ReturnsIff(x: I32, s: I32, d: int)
    requires x % WORD == (s + d) % WORD
    ensures x == s <==> d % WORD == 0
  {
  }

  lemma OddSlope(a: int, c: int, s: int)
    requires a % 2 == 1 && c % 2 == 1
    ensures ((a - 1) * s + c) % 2 == 1
  {
    var b := a / 2;
    assert a - 1 == 2 * b;
    EvenTimes(b, s);
    SameResidue(2 * (b * s) + c, c, 2, b * s);
  }

  lemma OddTimesGeometric(t: int, a: nat, n: nat)
    requires t % 2 == 1 && a % 4 == 1
    ensures t * Geometric(a, n) % WORD == 0 <==> n % WORD == 0
  {
    assert Geometric(a, n) * t == t * Geometric(a, n);
    OddFactor(Geometric(a, n), t, 32);
    GeometricTwos(a, n, 32);
    Pow2Values();
  }

  /** Knuth's sufficient condition: a multiplier 1 modulo 4 and an odd increment give the full cycle. */
  lemma LcgFullCycle(a: U32, c: U32)
    requires a % 4 == 1 && c % 2 == 1
    ensures FullCycle(LcgBy(a, c))
  {
    forall s: I32, n: nat ensures Iterate(LcgBy(a, c), n, s) == s <==> n % WORD == 0 {
      LcgReturns(a, c, n, s);
    }
  }

  // ---- The Weyl sequence ----------------------------------------------------------------------------------

  function WeylBy(increment: U32): I32 -> I32 {
    (s: I32) => WeylStep(s, increment)
  }

  /** A Weyl step is the congruential step with multiplier one. */
  lemma WeylIsLcg(increment: U32, s: I32)
    ensures WeylStep(s, increment) == LcgStep(s, 1, increment)
  {
  }

  lemma {:induction false} WeylIterates(increment: U32, n: nat, s: I32)
    ensures Iterate(WeylBy(increment), n, s) == Iterate(LcgBy(1, increment), n, s)
    decreases n
  {
    if n > 0 {
      WeylIterates(increment, n - 1, s);
      WeylIsLcg(increment, Iterate(WeylBy(increment), n - 1, s));
    }
  }

  lemma WeylFullCycle(increment: U32)
    requires increment % 2 == 1
    ensures FullCycle(WeylBy(increment))
  {
    LcgFullCycle(1, increment);
    forall s: I32, n: nat ensures Iterate(WeylBy(increment), n, s) == s <==> n % WORD == 0 {
      WeylIterates(increment, n, s);
    }
  }

  // ---- What a full cycle visits -----------------------------------------------------------------------------

  const MIN: int := -0x8000_0000

  /** The n-th output: step the state, then mix it. */
  function Output(f: I32 -> I32, g: I32 -> I32, s: I32, n: nat): I32 {
    g(Iterate(f, n + 1, s))
  }

  function OutputAt(f: I32 -> I32, g: I32 -> I32, s: I32): int -> int {
    (n: int) => if n < 0 then 0 else Output(f, g, s, n)
  }

  function Identity(x: I32): I32 { x }

  /** On a full cycle two steps agree exactly when they lie a multiple of 2^32 apart. */
  lemma StatesRepeatExactly(f: I32 -> I32, s: I32, i: nat, j: nat)
    requires FullCycle(f) && i <= j
    ensures Iterate(f, i, s) == Iterate(f, j, s) <==> (j - i) % WORD == 0
  {
    IterateAdds(f, i, j - i, s);
    assert Iterate(f, j - i, Iterate(f, i, s)) == Iterate(f, i, s) <==> (j - i) % WORD == 0;
  }

  lemma OutputsDiffer(f: I32 -> I32, g: I32 -> I32, s: I32, k: nat)
    requires FullCycle(f) && Injective(g)
    ensures InjectiveOn(Range(k, WORD), OutputAt(f, g, s))
  {
    hide FullCycle;
    RangeIs(k, WORD);
    forall i, j | i in Range(k, WORD) && j in Range(k, WORD) && OutputAt(f, g, s)(i) == OutputAt(f, g, s)(j)
      ensures i == j
    {
      assert Iterate(f, i + 1, s) == Iterate(f, j + 1, s);
      if i <= j {
        StatesRepeatExactly(f, s, i + 1, j + 1);
      } else {
        StatesRepeatExactly(f, s, j + 1, i + 1);
      }
    }
  }

  /** Any 2^32 consecutive outputs are every word, each exactly once. */
  lemma EveryWordOnce(f: I32 -> I32, g: I32 -> I32, s: I32, k: nat, v: I32) returns (n: nat)
    requires FullCycle(f) && Injective(g)
    ensures k <= n < k + WORD && Output(f, g, s, n) == v
    ensures forall m: nat :: k <= m < k + WORD && Output(f, g, s, m) == v ==> m == n
  {
    OutputsDiffer(f, g, s, k);
    RangeIs(k, WORD);
    var x := Covers(k, MIN, WORD, OutputAt(f, g, s), v);
    n := x;
    forall m: nat | k <= m < k + WORD && Output(f, g, s, m) == v ensures m == n {
      assert m in Range(k, WORD) && n in Range(k, WORD);
      assert OutputAt(f, g, s)(m) == OutputAt(f, g, s)(n);
    }
  }

  function LowByte(x: int): Byte {
    x % 0x100
  }

  /** The steps among 2^32 consecutive ones whose output has low byte `b`. */
  ghost function StepsEmitting(f: I32 -> I32, g: I32 -> I32, s: I32, k: nat, b: Byte): set<int> {
    set n | n in Range(k, WORD) && LowByte(OutputAt(f, g, s)(n)) == b
  }

  ghost function WordsEndingIn(b: Byte): set<int> {
    set v | v in Range(MIN, WORD) && LowByte(v) == b
  }

  function Placed(b: Byte): int -> int {
    (q: int) => 0x100 * q + b
  }

  lemma CountWordsEndingIn(b: Byte)
    ensures |WordsEndingIn(b)| == 0x100_0000
  {
    var quotients := Range(-0x80_0000, 0x100_0000);
    RangeIs(-0x80_0000, 0x100_0000);
    RangeIs(MIN, WORD);
    assert InjectiveOn(quotients, Placed(b));
    ImageSize(quotients, Placed(b));
    forall v ensures v in WordsEndingIn(b) <==> v in Image(quotients, Placed(b)) {
      if v in WordsEndingIn(b) {
        assert v / 0x100 in quotients && Placed(b)(v / 0x100) == v;
      }
    }
    assert WordsEndingIn(b) == Image(quotients, Placed(b));
  }

  /** So after masking to bytes each byte value appears exactly 2^24 times in any 2^32 consecutive outputs. */
  lemma EveryByteEquallyOften(f: I32 -> I32, g: I32 -> I32, s: I32, k: nat, b: Byte)
    requires FullCycle(f) && Injective(g)
    ensures |StepsEmitting(f, g, s, k, b)| == 0x100_0000
  {
    var steps, h := StepsEmitting(f, g, s, k, b), OutputAt(f, g, s);
    OutputsDiffer(f, g, s, k);
    RangeIs(k, WORD);
    RangeIs(MIN, WORD);
    ImageSize(steps, h);
    forall v ensures v in WordsEndingIn(b) <==> v in Image(steps, h) {
      if v in WordsEndingIn(b) {
        var n := EveryWordOnce(f, g, s, k, v);
        assert n in steps && h(n) == v;
      }
    }
    assert WordsEndingIn(b) == Image(steps, h);
    CountWordsEndingIn(b);
  }

  // ---- When a congruential step has a full cycle, exactly ---------------------------------------------------

  lemma FullCycleInjective(f: I32 -> I32, x: I32, y: I32)
    requires FullCycle(f) && f(x) == f(y)
    ensures x == y
  {
    IterateAdds(f, 1, WORD - 1, x);
    IterateAdds(f, 1, WORD - 1, y);
    assert Iterate(f, 1, x) == f(Iterate(f, 0, x)) && Iterate(f, 1, y) == f(Iterate(f, 0, y));
    assert Iterate(f, WORD, x) == x && Iterate(f, WORD, y) == y;
  }

  lemma EvenFactorLosesTopBit(m: U32)
    requires m % 2 == 0
    ensures MIN * m % WORD == 0
  {
    assert MIN * m == -(m / 2) * WORD;
    DivUnique(MIN * m, WORD, -(m / 2), 0);
  }

  lemma EvenMultiplierFails(a: U32, c: U32)
    requires a % 2 == 0
    ensures !FullCycle(LcgBy(a, c))
  {
    EvenFactorLosesTopBit(a);
    AddCongruent(MIN * a, 0, c);
    assert LcgBy(a, c)(MIN) == LcgBy(a, c)(0);
    if FullCycle(LcgBy(a, c)) {
      FullCycleInjective(LcgBy(a, c), MIN, 0);
    }
  }

  lemma StepModuloFour(x: I32, a: U32, c: U32)
    ensures LcgStep(x, a, c) % 4 == (x % 4 * (a % 4) + c % 4) % 4
  {
    var y, r := x * a + c, x % 4 * (a % 4) + c % 4;
    assert LcgStep(x, a, c) % WORD == y % WORD;
    ResidueByFour(LcgStep(x, a, c), y);
    ProductByFour(x, a, x / 4, a / 4, x % 4, a % 4);
    SameResidue(y, r, 4, x * (a / 4) + x / 4 * (a % 4) + c / 4);
  }

  lemma ResidueByFour(x: int, y: int)
    requires x % WORD == y % WORD
    ensures x % 4 == y % 4 && x % 2 == y % 2
  {
    var m := x / WORD - y / WORD;
    assert x == y + m * WORD;
    SameResidue(x, y, 4, m * 0x4000_0000);
    SameResidue(x, y, 2, m * 0x8000_0000);
  }

  lemma ProductByFour(x: int, a: int, p: int, q: int, r: int, t: int)
    requires x == 4 * p + r && a == 4 * q + t
    ensures x * a == 4 * (x * q + p * t) + r * t
  {
    assert x * (4 * q) == 4 * (x * q);
    assert x * t == (4 * p) * t + r * t;
    assert (4 * p) * t == 4 * (p * t);
  }

  lemma ResidueCases(x: int, c: int, y: int)
    requires 0 <= c < 4 && (x == 0 || x == c) && y == (x * 3 + c) % 4
    ensures y == 0 || y == c
  {
  }

  /** From zero, residues modulo 4 alternate between 0 and the increment when a + 1 is a multiple of 4. */
  lemma {:induction false} ResiduesAlternate(a: U32, c: U32, n: nat)
    requires a % 4 == 3
    ensures Iterate(LcgBy(a, c), n, 0) % 4 == 0 || Iterate(LcgBy(a, c), n, 0) % 4 == c % 4
    decreases n
  {
    if n > 0 {
      ResiduesAlternate(a, c, n - 1);
      var x := Iterate(LcgBy(a, c), n - 1, 0);
      StepModuloFour(x, a, c);
      ResidueCases(x % 4, c % 4, LcgStep(x, a, c) % 4);
    }
  }

  lemma {:induction false} ParityStays(a: U32, c: U32, n: nat)
    requires c % 2 == 0
    ensures Iterate(LcgBy(a, c), n, 0) % 2 == 0
    decreases n
  {
    if n > 0 {
      ParityStays(a, c, n - 1);
      StepKeepsEven(Iterate(LcgBy(a, c), n - 1, 0), a, c);
    }
  }

  lemma StepKeepsEven(x: I32, a: U32, c: U32)
    requires x % 2 == 0 && c % 2 == 0
    ensures LcgStep(x, a, c) % 2 == 0
  {
    var h := x / 2;
    assert x == 2 * h;
    EvenTimes(h, a);
    SameResidue(x * a + c, c, 2, h * a);
    assert LcgStep(x, a, c) % WORD == (x * a + c) % WORD;
    ResidueByFour(LcgStep(x, a, c), x * a + c);
  }

  lemma Visits(f: I32 -> I32, v: I32) returns (n: nat)
    requires FullCycle(f)
    ensures Iterate(f, n, 0) == v
  {
    var m := EveryWordOnce(f, Identity, 0, 0, v);
    n := m + 1;
  }

  lemma EvenIncrementFails(a: U32, c: U32)
    requires c % 2 == 0
    ensures !FullCycle(LcgBy(a, c))
  {
    hide FullCycle, Iterate;
    if FullCycle(LcgBy(a, c)) {
      var n := Visits(LcgBy(a, c), 1);
      ParityStays(a, c, n);
    }
  }

  lemma ThreeModuloFourFails(a: U32, c: U32)
    requires a % 4 == 3 && c % 2 == 1
    ensures !FullCycle(LcgBy(a, c))
  {
    hide FullCycle, Iterate;
    if FullCycle(LcgBy(a, c)) {
      var n := Visits(LcgBy(a, c), 2);
      ResiduesAlternate(a, c, n);
    }
  }

  lemma OddResidues(a: int)
    ensures a % 4 == 1 || a % 4 == 3 <==> a % 2 == 1
  {
    DivUnique(a, 2, 2 * (a / 4) + a % 4 / 2, a % 4 % 2);
  }

  /** A 32-bit congruential step has a full cycle exactly for a multiplier 1 modulo 4 and an odd increment. */
  lemma LcgFullCycleExactly(a: U32, c: U32)
    ensures FullCycle(LcgBy(a, c)) <==> a % 4 == 1 && c % 2 == 1
  {
    hide FullCycle;
    OddResidues(a);
    if a % 2 == 0 {
      EvenMultiplierFails(a, c);
    } else if c % 2 == 0 {
      EvenIncrementFails(a, c);
    } else if a % 4 == 1 {
      LcgFullCycle(a, c);
    } else {
      ThreeModuloFourFails(a, c);
    }
  }

  // ---- The multiply-xor-shift mixer, exactly ----------------------------------------------------------------

  function MxsBy(m1: U32, m2: U32): I32 -> I32 {
    (x: I32) => MxsMix(x, m1, m2)
  }

  function MxsInner(m1: U32): I32 -> I32 {
    (x: I32) => ShiftRightXor(MulNarrow(ShiftLeftXor(x, 5), m1), 15)
  }

  lemma MxsInnerInjective(m1: U32)
    requires m1 % 2 == 1
    ensures Injective(MxsInner(m1))
  {
    forall x: I32, y: I32 | MxsInner(m1)(x) == MxsInner(m1)(y) ensures x == y {
      var a, b := ShiftLeftXor(x, 5), ShiftLeftXor(y, 5);
      ShiftRightXorInjective(MulNarrow(a, m1), MulNarrow(b, m1), 15);
      MulNarrowInjective(a, b, m1);
      ShiftLeftXorInjective(x, y, 5);
    }
  }

  /** A permutation of the words reaches every word. */
  lemma Preimage(g: I32 -> I32, v: I32) returns (x: I32)
    requires Injective(g)
    ensures g(x) == v
  {
    var h := (n: int) => if MIN <= n < MIN + WORD then g(n) else 0;
    RangeIs(MIN, WORD);
    var n := Covers(MIN, MIN, WORD, h, v);
    x := n;
  }

  lemma EvenFactorCollides(m: U32)
    requires m % 2 == 0
    ensures MulNarrow(MIN, m) == MulNarrow(0, m)
  {
    EvenFactorLosesTopBit(m);
  }

  /** A word whose left shift drops every bit passes through unchanged. */
  lemma ShiftedOut(x: I32, k: Shift)
    requires AsU32(x) * Pow2(k) % WORD == 0
    ensures ShiftLeftXor(x, k) == x
  {
    ShiftLeftXorBits(x, k);
    Pow2Values();
    XorZero(32, AsU32(x));
    AsU32Injective(ShiftLeftXor(x, k), x);
  }

  lemma TopBitSurvives(k: Shift)
    requires k >= 1
    ensures ShiftLeftXor(MIN, k) == MIN && ShiftLeftXor(0, k) == 0
  {
    assert 0x8000_0000 * (2 * Pow2(k - 1)) == Pow2(k - 1) * WORD;
    DivUnique(AsU32(MIN) * Pow2(k), WORD, Pow2(k - 1), 0);
    ShiftedOut(MIN, k);
    ShiftedOut(0, k);
  }

  /** The mixer is the inner part and one more multiplication. */
  lemma MxsIsInnerTimes(m1: U32, m2: U32, x: I32)
    ensures MxsBy(m1, m2)(x) == MulNarrow(MxsInner(m1)(x), m2)
  {
  }

  lemma EvenInnerCollides(m1: U32, m2: U32)
    requires m1 % 2 == 0
    ensures MxsBy(m1, m2)(MIN) == MxsBy(m1, m2)(0)
  {
    hide MulNarrow, ShiftRightXor, ShiftLeftXor;
    TopBitSurvives(5);
    EvenFactorCollides(m1);
  }

  lemma EvenOuterCollides(m1: U32, m2: U32) returns (x: I32, y: I32)
    requires m1 % 2 == 1 && m2 % 2 == 0
    ensures x != y && MxsBy(m1, m2)(x) == MxsBy(m1, m2)(y)
  {
    hide MulNarrow, MxsBy, MxsInner;
    MxsInnerInjective(m1);
    x := Preimage(MxsInner(m1), MIN);
    y := Preimage(MxsInner(m1), 0);
    EvenFactorCollides(m2);
    MxsIsInnerTimes(m1, m2, x);
    MxsIsInnerTimes(m1, m2, y);
  }

  lemma OddMxsInjective(m1: U32, m2: U32)
    requires m1 % 2 == 1 && m2 % 2 == 1
    ensures Injective(MxsBy(m1, m2))
  {
    hide MulNarrow, MxsBy, MxsInner;
    MxsInnerInjective(m1);
    forall x: I32, y: I32 | MxsBy(m1, m2)(x) == MxsBy(m1, m2)(y) ensures x == y {
      MxsIsInnerTimes(m1, m2, x);
      MxsIsInnerTimes(m1, m2, y);
      MulNarrowInjective(MxsInner(m1)(x), MxsInner(m1)(y), m2);
    }
  }

  /** The mixer permutes the words exactly when both of its multipliers are odd. */
  lemma MxsPermutesExactly(m1: U32, m2: U32)
    ensures Injective(MxsBy(m1, m2)) <==> m1 % 2 == 1 && m2 % 2 == 1
  {
    hide MxsBy;
    if m1 % 2 == 0 {
      EvenInnerCollides(m1, m2);
    } else if m2 % 2 == 0 {
      var x, y := EvenOuterCollides(m1, m2);
    } else {
      OddMxsInjective(m1, m2);
    }
  }
}
