/**
  The CRC-32/IEEE stream checksum of `crates/rdlp-downloader/src/atomic.rs`.

  `Update` is a hasher whose finalized value is its whole state, so a stored checksum can seed a hasher
  that continues the stream. Resume depends on that (`UpdateConcat`).
*/
module Crc32 {
  import opened Wrappers
  import opened ByteFold
  import opened Bits
  import opened Words

  /** CRC-32/IEEE, reflected form. */
  const POLYNOMIAL: U32 := 0xEDB8_8320

  function Complement(c: U32): U32 {
    0xFFFF_FFFF - c
  }

  function Round(c: U32): U32 {
    if c % 2 == 1 then Xor32(c / 2, POLYNOMIAL) else c / 2
  }

  function Rounds(n: nat, c: U32): U32 {
    if n == 0 then c else Rounds(n - 1, Round(c))
  }

  function Step(c: U32, b: Byte): U32 {
    Rounds(8, Xor32(c, b))
  }

  /** Feed `s` to a hasher whose finalized value so far is `crc`. */
  function Update(crc: U32, s: Bytes): U32 {
    Complement(Fold(Step, Complement(crc), s))
  }

  function Checksum(s: Bytes): U32 {
    Update(0, s)
  }

  // ---- A round multiplies by x modulo the generator -------------------------------------------------------

  /** The terms below x^32 of the generator polynomial of CRC-32/IEEE, section 3.2.9 of IEEE 802.3. */
  const GENERATOR: set<nat> := {0, 1, 2, 4, 5, 7, 8, 10, 11, 12, 16, 22, 23, 26}

  /** The coefficient of x^e in the polynomial a state stands for: the reflected form keeps it in bit 31 - e. */
  predicate Coefficient(c: U32, e: nat)
    requires e < 32
  {
    Bit(c, 31 - e)
  }

  lemma LowestByte(k: nat)
    requires k < 8
    ensures Bit(0xEDB8_8320, k) <==> k == 5
  {
    assert !Bit(0xEDB8_8320, 0) && !Bit(0xEDB8_8320, 1) && !Bit(0xEDB8_8320, 2) && !Bit(0xEDB8_8320, 3);
    assert !Bit(0xEDB8_8320, 4) && Bit(0xEDB8_8320, 5) && !Bit(0xEDB8_8320, 6) && !Bit(0xEDB8_8320, 7);
  }

  lemma SecondByte(k: nat)
    requires k < 8
    ensures Bit(0xED_B883, k) <==> k in {0, 1, 7}
  {
    assert Bit(0xED_B883, 0) && Bit(0xED_B883, 1) && !Bit(0xED_B883, 2) && !Bit(0xED_B883, 3);
    assert !Bit(0xED_B883, 4) && !Bit(0xED_B883, 5) && !Bit(0xED_B883, 6) && Bit(0xED_B883, 7);
  }

  lemma ThirdByte(k: nat)
    requires k < 8
    ensures Bit(0xEDB8, k) <==> k in {3, 4, 5, 7}
  {
    assert !Bit(0xEDB8, 0) && !Bit(0xEDB8, 1) && !Bit(0xEDB8, 2) && Bit(0xEDB8, 3);
    assert Bit(0xEDB8, 4) && Bit(0xEDB8, 5) && !Bit(0xEDB8, 6) && Bit(0xEDB8, 7);
  }

  lemma HighestByte(k: nat)
    requires k < 8
    ensures Bit(0xED, k) <==> k in {0, 2, 3, 5, 6, 7}
  {
    assert Bit(0xED, 0) && !Bit(0xED, 1) && Bit(0xED, 2) && Bit(0xED, 3);
    assert !Bit(0xED, 4) && Bit(0xED, 5) && Bit(0xED, 6) && Bit(0xED, 7);
  }

  /** The constant of the code is that polynomial. */
  lemma PolynomialIsGenerator(e: nat)
    requires e < 32
    ensures Coefficient(POLYNOMIAL, e) <==> e in GENERATOR
  {
    hide Bit;
    var k := 31 - e;
    ByteAndAbove(0xEDB8_8320, k);
    if k < 8 {
      LowestByte(k);
    } else {
      ByteAndAbove(0xED_B883, k - 8);
      if k < 16 {
        SecondByte(k - 8);
      } else {
        ByteAndAbove(0xEDB8, k - 16);
        if k < 24 {
          ThirdByte(k - 16);
        } else {
          HighestByte(k - 24);
        }
      }
    }
  }

  /**
    One round multiplies the state's polynomial by x and takes the remainder modulo the generator: every
    coefficient moves up by one, and x^32, where it arises, is replaced by the generator's lower terms.
  */
  lemma RoundIsTimesX(c: U32, e: nat)
    requires e < 32
    ensures Coefficient(Round(c), e) <==>
      (e > 0 && Coefficient(c, e - 1)) != (Coefficient(c, 31) && e in GENERATOR)
  {
    hide Xor, Pow2;
    var k := 31 - e;
    Pow2Values();
    PolynomialIsGenerator(e);
    assert Bit(c, k + 1) == Bit(c / 2, k);
    assert Bit(c, 0) == (c % 2 == 1);
    XorBit(32, c / 2, POLYNOMIAL, k);
    NoBitBeyond(c, 32);
  }

  /** A byte enters at the top: its lowest bit is the coefficient of x^31. */
  lemma ByteEntersAtTheTop(c: U32, b: Byte, e: nat)
    requires e < 32
    ensures Coefficient(Xor32(c, b), e) <==> Coefficient(c, e) != (e >= 24 && Bit(b, 31 - e))
  {
    hide Xor, Pow2, Bit;
    XorBit(32, c, b, 31 - e);
    if e < 24 {
      Pow2Values();
      ByteAndAbove(b, 31 - e);
      NoBitsInZero(23 - e);
    }
  }

  lemma {:induction false} NoBitsInZero(k: nat)
    ensures !Bit(0, k)
  {
    if k > 0 {
      NoBitsInZero(k - 1);
    }
  }

  // ---- Composition ----------------------------------------------------------------------------------------

  /** A hasher seeded with a stored checksum continues the stream as if it had never stopped. */
  lemma UpdateConcat(crc: U32, s: Bytes, t: Bytes)
    ensures Update(crc, s + t) == Update(Update(crc, s), t)
  {
    hide Step;
    FoldConcat(Step, Complement(crc), s, t);
  }

  /** The polynomial's top bit records whether a round shifted out a one. */
  lemma RoundInjective(c: U32, d: U32)
    requires Round(c) == Round(d)
    ensures c == d
  {
    Pow2Values();
    assert Pow2(32) == 2 * Pow2(31);
    XorTopBit(31, c / 2, POLYNOMIAL);
    XorTopBit(31, d / 2, POLYNOMIAL);
    if c % 2 == 1 && d % 2 == 1 {
      XorInjective(32, c / 2, d / 2, POLYNOMIAL);
    }
  }

  lemma {:induction false} RoundsInjective(n: nat, c: U32, d: U32)
    requires Rounds(n, c) == Rounds(n, d)
    ensures c == d
  {
    if n > 0 {
      RoundsInjective(n - 1, Round(c), Round(d));
      RoundInjective(c, d);
    }
  }

  lemma StepPermutesStates()
    ensures PermutesStates(Step)
  {
    forall c: U32, d: U32, b: Byte | Step(c, b) == Step(d, b) ensures c == d {
      RoundsInjective(8, Xor32(c, b), Xor32(d, b));
      Pow2Values();
      XorInjective(32, c, d, b);
    }
  }

  lemma StepSeparatesBytes()
    ensures SeparatesBytes(Step)
  {
    forall c: U32, b: Byte, d: Byte | Step(c, b) == Step(c, d) ensures b == d {
      RoundsInjective(8, Xor32(c, b), Xor32(c, d));
      Pow2Values();
      XorInjectiveRight(32, c, b, d);
    }
  }

  /** Corruption confined to one byte of a partial never escapes the checksum. */
  lemma OneByteCorruptionIsDetected(s: Bytes, k: nat, b: Byte)
    requires k < |s| && b != s[k]
    ensures Checksum(s[k := b]) != Checksum(s)
  {
    hide Step;
    StepPermutesStates();
    StepSeparatesBytes();
    OneByteChangeIsDetected(Step, Complement(0), s, k, b);
  }

  /** A bit that is not shifted out passes a round unchanged. */
  lemma RoundShifts(c: U32, z: nat)
    requires z < Pow2(31)
    ensures Pow2(32) == 0x1_0000_0000 && 2 * z < Pow2(32)
    ensures Round(Xor(32, c, 2 * z)) == Xor(32, Round(c), z)
  {
    hide Xor, Pow2;
    Pow2Values();
    XorDigits(32, c, 2 * z);
    XorWidens(31, c / 2, z);
    XorSwaps(32, c / 2, z, POLYNOMIAL);
  }

  /** So bits above the lowest `n` come through `n` rounds shifted down. */
  lemma {:induction false} RoundsShift(n: nat, c: U32, z: nat)
    requires n <= 32 && z < Pow2(32 - n)
    ensures Pow2(32) == 0x1_0000_0000 && Pow2(n) * z < Pow2(32)
    ensures Rounds(n, Xor(32, c, Pow2(n) * z)) == Xor(32, Rounds(n, c), z)
  {
    hide Round, Xor, Pow2;
    Pow2Values();
    ProductBelow(n, z);
    if n > 0 {
      HalfProduct(n, z);
      Pow2Monotone(32 - n, 33 - n);
      RoundsShift(n - 1, Round(c), z);
      RoundShifts(c, Pow2(n - 1) * z);
    } else {
      PowerOfZero(z);
    }
  }

  lemma PowerOfZero(z: nat)
    ensures Pow2(0) * z == z
  {
  }

  lemma ProductBelow(n: nat, z: nat)
    requires n <= 32 && z < Pow2(32 - n)
    ensures Pow2(n) * z < Pow2(32)
  {
    hide Pow2;
    Pow2Adds(n, 32 - n);
    FactorBelow(z, Pow2(n), Pow2(32 - n));
  }

  lemma FactorBelow(z: nat, p: nat, q: nat)
    requires z < q && p >= 1
    ensures p * z < p * q
  {
    MulMonotone(z + 1, q, p);
  }

  lemma HalfProduct(n: nat, z: nat)
    requires 0 < n <= 32 && z < Pow2(32 - n)
    ensures Pow2(n) * z == 2 * (Pow2(n - 1) * z) < 2 * Pow2(31)
  {
    ProductBelow(n, z);
    EvenTimes(Pow2(n - 1), z);
  }

  lemma {:induction false} RoundsAdd(m: nat, n: nat, c: U32)
    ensures Rounds(m + n, c) == Rounds(n, Rounds(m, c))
  {
    if m > 0 {
      RoundsAdd(m - 1, n, Round(c));
    }
  }

  /** Bytes as one number, the first lowest. */
  function Word(u: Bytes): nat {
    if u == [] then 0 else u[0] + Pow2(8) * Word(u[1..])
  }

  lemma {:induction false} WordIsBelow(u: Bytes)
    ensures Word(u) < Pow2(8 * |u|)
  {
    hide Pow2;
    if u != [] {
      WordIsBelow(u[1..]);
      Pow2Values();
      Pow2Adds(8, 8 * |u| - 8);
      MulMonotone(Word(u[1..]) + 1, Pow2(8 * |u| - 8), Pow2(8));
    }
  }

  lemma {:induction false} WordIsInjective(u: Bytes, v: Bytes)
    requires |u| == |v| && Word(u) == Word(v)
    ensures u == v
  {
    hide Pow2;
    if u != [] {
      Pow2Values();
      WordIsInjective(u[1..], v[1..]);
      assert u == [u[0]] + u[1..] && v == [v[0]] + v[1..];
    }
  }

  /** Up to four bytes enter the state as one word. */
  lemma {:induction false} FeedsOneWord(c: U32, u: Bytes)
    requires |u| <= 4
    ensures Pow2(32) == 0x1_0000_0000
    ensures Fold(Step, c, u) == Rounds(8 * |u|, Xor(32, c, Word(u)))
    decreases |u|
  {
    hide Rounds, Xor, Pow2;
    Pow2Values();
    if u == [] {
      XorZero(32, c);
      NoRounds(c);
    } else {
      var z, x := Word(u[1..]), Xor32(c, u[0]);
      WordIsBelow(u[1..]);
      Pow2Monotone(8 * |u[1..]|, 24);
      FeedsOneWord(Step(c, u[0]), u[1..]);
      RoundsShift(8, x, z);
      XorSplits(32, c, u[0], 8, z);
      RoundsAdd(8, 8 * |u| - 8, Xor(32, x, Pow2(8) * z));
    }
  }

  lemma NoRounds(c: U32)
    ensures Rounds(0, c) == c
  {
  }

  lemma ShortWordsAreSeparated(c: U32, u: Bytes, v: Bytes)
    requires |u| == |v| <= 4 && Fold(Step, c, u) == Fold(Step, c, v)
    ensures u == v
  {
    hide Step, Rounds, Word, Xor, Pow2;
    Pow2Values();
    FeedsOneWord(c, u);
    FeedsOneWord(c, v);
    RoundsInjective(8 * |u|, Xor(32, c, Word(u)), Xor(32, c, Word(v)));
    WordIsBelow(u);
    WordIsBelow(v);
    Pow2Monotone(8 * |u|, 32);
    XorInjectiveRight(32, c, Word(u), Word(v));
    WordIsInjective(u, v);
  }

  /** The checksum's own bytes, lowest first, as a sender appends them. */
  function Appended(crc: U32): (s: Bytes)
    ensures |s| == 4
  {
    [crc % 0x100, crc / 0x100 % 0x100, crc / 0x1_0000 % 0x100, crc / 0x100_0000]
  }

  lemma AppendedIsWord(crc: U32)
    ensures Word(Appended(crc)) == crc
  {
    hide Word;
    var s := Appended(crc);
    OneMore(s[3], []);
    OneMore(s[2], [s[3]]);
    OneMore(s[1], [s[2], s[3]]);
    OneMore(s[0], [s[1], s[2], s[3]]);
    NoBytes();
    assert [s[3]] + [] == [s[3]] && [s[2]] + [s[3]] == [s[2], s[3]];
    assert [s[1]] + [s[2], s[3]] == [s[1], s[2], s[3]] && [s[0]] + [s[1], s[2], s[3]] == s;
    BytesOf(crc);
  }

  lemma OneMore(b: Byte, s: Bytes)
    ensures Word([b] + s) == b + 0x100 * Word(s)
  {
    hide Pow2;
    Pow2Values();
    assert ([b] + s)[1..] == s;
  }

  lemma NoBytes()
    ensures Word([]) == 0
  {
  }

  lemma BytesOf(crc: nat)
    ensures crc % 0x100
            + 0x100 * (crc / 0x100 % 0x100 + 0x100 * (crc / 0x1_0000 % 0x100 + 0x100 * (crc / 0x100_0000))) == crc
  {
    assert crc / 0x100 / 0x100 == crc / 0x1_0000 && crc / 0x1_0000 / 0x100 == crc / 0x100_0000;
  }

  lemma WordIsAppended(w: Bytes, crc: U32)
    requires |w| == 4
    ensures Word(w) == crc <==> w == Appended(crc)
  {
    AppendedIsWord(crc);
    if Word(w) == crc {
      WordIsInjective(w, Appended(crc));
    }
  }

  /** The complement is the exclusive or with all ones. */
  lemma {:induction false} XorWithComplement(n: nat, a: nat)
    requires a < Pow2(n)
    ensures Xor(n, Pow2(n) - 1 - a, a) == Pow2(n) - 1
  {
    if n > 0 {
      XorWithComplement(n - 1, a / 2);
      assert (Pow2(n) - 1 - a) / 2 == Pow2(n - 1) - 1 - a / 2;
      XorDigits(n, Pow2(n) - 1 - a, a);
      SameDigits(Xor(n, Pow2(n) - 1 - a, a), Pow2(n) - 1);
    }
  }

  lemma ChecksumOfFour(s: Bytes, w: Bytes)
    requires |w| == 4
    ensures Pow2(32) == 0x1_0000_0000
    ensures Checksum(s + w) == Complement(Rounds(32, Xor(32, Complement(Checksum(s)), Word(w))))
  {
    hide Step, Rounds, Word, Xor, Pow2;
    Pow2Values();
    FoldConcat(Step, Complement(0), s, w);
    FeedsOneWord(Fold(Step, Complement(0), s), w);
  }

  /**
    The receiver's test: a message followed by its own checksum has one and the same checksum whatever the
    message, and a message followed by any other four bytes never has it.
  */
  lemma AppendedChecksumIsRecognised(s: Bytes, w: Bytes)
    requires |w| == 4
    ensures Checksum(s + w) == Checksum([0, 0, 0, 0]) <==> w == Appended(Checksum(s))
  {
    hide Step, Rounds, Word, Xor, Pow2, Checksum;
    var zeros: Bytes := [0, 0, 0, 0];
    Pow2Values();
    EmptyChecksum();
    assert [] + zeros == zeros;
    assert Appended(0) == zeros;
    Residue(s, w);
    Residue([], zeros);
    WordIsAppended(w, Checksum(s));
    WordIsAppended(zeros, 0);
  }

  /** Every message followed by four bytes has the checksum of all ones run through, if they are its own. */
  lemma Residue(s: Bytes, w: Bytes)
    requires |w| == 4
    ensures Checksum(s + w) == Complement(Rounds(32, 0xFFFF_FFFF)) <==> Word(w) == Checksum(s)
  {
    hide Step, Rounds, Word, Xor, Pow2, Checksum;
    var c := Checksum(s);
    Pow2Values();
    ChecksumOfFour(s, w);
    WordIsBelow(w);
    XorWithComplement(32, c);
    if Checksum(s + w) == Complement(Rounds(32, 0xFFFF_FFFF)) {
      RoundsInjective(32, Xor(32, Complement(c), Word(w)), 0xFFFF_FFFF);
      XorInjectiveRight(32, Complement(c), Word(w), c);
    }
  }

  lemma {:induction false} RoundsOfZero(n: nat)
    ensures Rounds(n, 0) == 0
  {
    if n > 0 {
      RoundsOfZero(n - 1);
    }
  }

  /** A hasher starts from all ones and hands out the complement: four bytes of ones cancel the start. */
  lemma OnesCancelTheStart()
    ensures Checksum([0xFF, 0xFF, 0xFF, 0xFF]) == 0xFFFF_FFFF
  {
    hide Step, Rounds, Xor, Pow2, Word;
    var ones: Bytes := [0xFF, 0xFF, 0xFF, 0xFF];
    Pow2Values();
    FeedsOneWord(0xFFFF_FFFF, ones);
    AppendedIsWord(0xFFFF_FFFF);
    assert Appended(0xFFFF_FFFF) == ones;
    XorWithComplement(32, 0xFFFF_FFFF);
    XorCommutes(32, 0, 0xFFFF_FFFF);
    XorTwice(32, 0, 0xFFFF_FFFF);
    RoundsOfZero(32);
  }

  /** Nor does any corruption confined to four consecutive bytes. */
  lemma FourByteCorruptionIsDetected(pre: Bytes, u: Bytes, v: Bytes, post: Bytes)
    requires |u| == |v| <= 4 && u != v
    ensures Checksum(pre + u + post) != Checksum(pre + v + post)
  {
    hide Step;
    StepPermutesStates();
    FoldConcat(Step, Complement(0), pre, u);
    FoldConcat(Step, Complement(0), pre, v);
    FoldConcat(Step, Complement(0), pre + u, post);
    FoldConcat(Step, Complement(0), pre + v, post);
    var at := Fold(Step, Complement(0), pre);
    if Checksum(pre + u + post) == Checksum(pre + v + post) {
      FoldInjectiveInState(Step, Fold(Step, at, u), Fold(Step, at, v), post);
      ShortWordsAreSeparated(at, u, v);
    }
  }

  lemma EmptyChecksum()
    ensures Checksum([]) == 0
  {
  }

  datatype ReadError = UnexpectedEof

  /**
    `crc32_of_prefix`: hash the first `len` bytes of `file`, reading at most `bufferSize` bytes at a time.
    A read may return fewer bytes than asked for; `shortRead` is how many the operating system returns
    for the request at each offset.
  */
  method PrefixChecksum(file: Bytes, len: nat, bufferSize: nat, shortRead: nat -> nat)
    returns (r: Result<U32, ReadError>)
    requires bufferSize > 0
    requires forall at: nat :: 1 <= shortRead(at)
    ensures r == if len <= |file| then Ok(Checksum(file[..len])) else Err(UnexpectedEof)
  {
    hide Update;
    EmptyChecksum();
    var hasher: U32 := 0;
    var remaining := len;
    var at := 0;
    while remaining > 0
      invariant 0 <= remaining && at <= |file| && at + remaining == len
      invariant hasher == Checksum(file[..at])
    {
      var want := if remaining < bufferSize then remaining else bufferSize;
      var available := |file| - at;
      var n := if want < available then want else available;
      if shortRead(at) < n {
        n := shortRead(at);
      }
      if n == 0 {
        return Err(UnexpectedEof);
      }
      var chunk := file[at..at + n];
      UpdateConcat(0, file[..at], chunk);
      assert file[..at] + chunk == file[..at + n];
      hasher := Update(hasher, chunk);
      at := at + n;
      remaining := remaining - n;
    }
    assert file[..at] == file[..len];
    return Ok(hasher);
  }
}
