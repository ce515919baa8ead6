/** The static chunk sizes of `crates/rdlp-downloader/src/chunking.rs`. */
module Chunking {
  import opened Wrappers
  import opened Bits

  const MIN_CHUNK: nat := 0x1_0000
  const MAX_CHUNK: nat := 0x80_0000

  datatype Strategy = Auto | Fixed(size: nat) | Legacy(chunkCount: nat)

  datatype Panic = NotAPowerOfTwo | DivisionByZero

  datatype Chunks = Chunks(size: nat, count: nat)

  ghost predicate IsPowerOfTwo(n: nat) {
    exists k: nat :: n == Pow2(k)
  }

  /** Doubles `p` until it reaches `n`. */
  function DoubledTo(p: nat, n: nat): (r: nat)
    requires p >= 1
    ensures r >= n && r >= p
    decreases n - p
  {
    if p >= n then p else DoubledTo(2 * p, n)
  }

  /** `u64::next_power_of_two`. */
  function NextPowerOfTwo(n: nat): (r: nat)
    ensures r >= n
  {
    DoubledTo(1, n)
  }

  /** `usize::is_power_of_two`. */
  predicate PowerOfTwo(n: nat) {
    n > 0 && NextPowerOfTwo(n) == n
  }

  function Clamped(fileSize: U64): nat {
    var target := fileSize / 1024;
    if target < MIN_CHUNK then MIN_CHUNK else if target > MAX_CHUNK then MAX_CHUNK else target
  }

  function ChunkSizeForFile(fileSize: U64): nat {
    NextPowerOfTwo(Clamped(fileSize))
  }

  function DivCeil(a: nat, b: nat): nat
    requires b > 0
  {
    (a + b - 1) / b
  }

  function CalculateChunks(fileSize: U64, strategy: Strategy): Result<Chunks, Panic> {
    match strategy
    case Auto => Counted(fileSize, ChunkSizeForFile(fileSize))
    case Fixed(size) => if PowerOfTwo(size) then Counted(fileSize, size) else Err(NotAPowerOfTwo)
    case Legacy(chunkCount) => if chunkCount == 0 then Err(DivisionByZero) else Counted(fileSize, fileSize / chunkCount)
  }

  function Counted(fileSize: U64, size: nat): Result<Chunks, Panic> {
    if size == 0 then Err(DivisionByZero) else Ok(Chunks(size, DivCeil(fileSize, size)))
  }

  // ---- The powers of two ----------------------------------------------------------------------------------

  lemma {:induction false} DoublingFinds(j: nat, n: nat) returns (k: nat)
    requires j == 0 || Pow2(j - 1) < n
    ensures DoubledTo(Pow2(j), n) == Pow2(k) && Pow2(k) >= n && (k == 0 || Pow2(k - 1) < n)
    decreases n - Pow2(j)
  {
    if Pow2(j) >= n {
      k := j;
    } else {
      assert 2 * Pow2(j) == Pow2(j + 1);
      k := DoublingFinds(j + 1, n);
    }
  }

  /** The next power of two is a power of two, and no smaller one reaches the number. */
  lemma NextIsLeast(n: nat)
    ensures IsPowerOfTwo(NextPowerOfTwo(n))
    ensures forall k: nat :: Pow2(k) >= n <==> Pow2(k) >= NextPowerOfTwo(n)
  {
    assert Pow2(0) == 1;
    var m := DoublingFinds(0, n);
    forall k: nat ensures Pow2(k) >= n <==> Pow2(k) >= Pow2(m) {
      if k < m {
        Pow2Monotone(k, m - 1);
      } else {
        Pow2Monotone(m, k);
      }
    }
  }

  /** The test for a power of two is exact. */
  lemma PowerOfTwoExactly(n: nat)
    ensures PowerOfTwo(n) <==> IsPowerOfTwo(n)
  {
    NextIsLeast(n);
    if IsPowerOfTwo(n) {
      var k: nat :| n == Pow2(k);
    }
  }

  // ---- The automatic size ---------------------------------------------------------------------------------

  lemma BoundaryPowers()
    ensures Pow2(0) == 1 && Pow2(23) == MAX_CHUNK
  {
    Pow2Values();
    Pow2Adds(16, 7);
    assert Pow2(7) == 128;
  }

  lemma Doubling(m: nat)
    ensures m > 0 ==> Pow2(m) == 2 * Pow2(m - 1)
  {
  }

  /**
    The automatic chunk size is the least power of two at or above a 1024th of the file, held between 64 KiB
    and 8 MiB, so it stays between them as well.
  */
  lemma AutoIsLeastPowerOfTwo(fileSize: U64)
    ensures IsPowerOfTwo(ChunkSizeForFile(fileSize))
    ensures forall k: nat :: Pow2(k) >= Clamped(fileSize) <==> Pow2(k) >= ChunkSizeForFile(fileSize)
    ensures 0x1_0000 <= ChunkSizeForFile(fileSize) <= 0x80_0000
    ensures ChunkSizeForFile(fileSize) < 2 * Clamped(fileSize)
    ensures forall k: nat :: Pow2(k) >= ChunkSizeForFile(fileSize) <==>
      Pow2(k) >= 0x1_0000 && (Pow2(k) >= fileSize / 1024 || Pow2(k) >= 0x80_0000)
  {
    NextIsLeast(Clamped(fileSize));
    BoundaryPowers();
    assert Pow2(23) >= Clamped(fileSize);
    var m := DoublingFinds(0, Clamped(fileSize));
    Doubling(m);
  }

  /** A larger file never gets smaller chunks. */
  lemma AutoIsMonotone(a: U64, b: U64)
    requires a <= b
    ensures ChunkSizeForFile(a) <= ChunkSizeForFile(b)
  {
    assert a / 1024 <= b / 1024;
    var x, y := Clamped(a), Clamped(b);
    NextIsLeast(x);
    NextIsLeast(y);
    var k: nat :| NextPowerOfTwo(y) == Pow2(k);
    assert x <= y;
    assert y <= Pow2(k);
    assert Pow2(k) >= x;
  }

  // ---- The count ------------------------------------------------------------------------------------------

  lemma CeilIsTight(a: nat, b: nat)
    requires b > 0
    ensures a > 0 ==> (DivCeil(a, b) - 1) * b < a
    ensures a <= DivCeil(a, b) * b
    ensures a == 0 ==> DivCeil(a, b) == 0
  {
    var q, r := (a + b - 1) / b, (a + b - 1) % b;
    assert a + b - 1 == q * b + r;
    Distribute(q, 1, b);
    if a == 0 {
      DivUnique(b - 1, b, 0, b - 1);
    }
  }

  /** A calculation panics exactly when it is given a fixed size off the powers of two or more chunks than bytes. */
  lemma PanicsExactly(fileSize: U64, strategy: Strategy)
    ensures CalculateChunks(fileSize, strategy).Ok? <==>
      match strategy
      case Auto => true
      case Fixed(size) => IsPowerOfTwo(size)
      case Legacy(chunkCount) => 1 <= chunkCount <= fileSize
  {
    match strategy {
      case Auto => AutoIsLeastPowerOfTwo(fileSize);
      case Fixed(size) => PowerOfTwoExactly(size);
      case Legacy(chunkCount) =>
        if chunkCount > 0 {
          LegacySize(fileSize, chunkCount);
        }
    }
  }

  lemma LegacySize(fileSize: nat, chunkCount: nat)
    requires chunkCount > 0
    ensures fileSize / chunkCount > 0 <==> chunkCount <= fileSize
  {
    if fileSize < chunkCount {
      DivUnique(fileSize, chunkCount, 0, fileSize);
    } else {
      var q := fileSize / chunkCount;
      assert fileSize == q * chunkCount + fileSize % chunkCount;
      if q <= 0 {
        MulMonotone(q, 0, chunkCount);
      }
    }
  }

  /** The chunks cover the file and the last one is needed. */
  lemma ChunksCoverTheFile(fileSize: U64, strategy: Strategy)
    requires CalculateChunks(fileSize, strategy).Ok?
    ensures var c := CalculateChunks(fileSize, strategy).value;
      && fileSize <= c.count * c.size
      && (fileSize > 0 ==> (c.count - 1) * c.size < fileSize)
      && (fileSize == 0 ==> c.count == 0)
    ensures var c := CalculateChunks(fileSize, strategy).value;
      match strategy
      case Auto => c.size == ChunkSizeForFile(fileSize)
      case Fixed(size) => c.size == size
      case Legacy(n) => c.size * n <= fileSize < (c.size + 1) * n
  {
    CeilIsTight(fileSize, CalculateChunks(fileSize, strategy).value.size);
    if strategy.Legacy? {
      var n, q := strategy.chunkCount, fileSize / strategy.chunkCount;
      assert fileSize == q * n + fileSize % n;
      assert (q + 1) * n == q * n + n;
    }
  }

  /** From 64 MiB to 8 GiB the automatic size gives 513 to 1025 chunks. */
  lemma AutoCount(fileSize: U64)
    requires 0x400_0000 <= fileSize <= 0x2_0000_0000
    ensures CalculateChunks(fileSize, Auto).Ok?
    ensures 513 <= CalculateChunks(fileSize, Auto).value.count <= 1025
  {
    AutoIsLeastPowerOfTwo(fileSize);
    var c := ChunkSizeForFile(fileSize);
    CeilIsTight(fileSize, c);
    var n := DivCeil(fileSize, c);
    if n <= 512 {
      MulMonotone(n, 512, c);
    }
    if n >= 1026 {
      MulMonotone(1025, n - 1, c);
    }
  }

  /** The legacy strategy yields the count it was asked for only when that count divides the file. */
  lemma LegacyCountExactly(fileSize: U64, chunkCount: nat)
    requires 1 <= chunkCount <= fileSize
    ensures CalculateChunks(fileSize, Legacy(chunkCount)).Ok?
    ensures CalculateChunks(fileSize, Legacy(chunkCount)).value.count >= chunkCount
    ensures CalculateChunks(fileSize, Legacy(chunkCount)).value.count == chunkCount <==> fileSize % chunkCount == 0
  {
    LegacySize(fileSize, chunkCount);
    var q := fileSize / chunkCount;
    CeilIsTight(fileSize, q);
    var n := DivCeil(fileSize, q);
    assert fileSize == q * chunkCount + fileSize % chunkCount;
    assert q * chunkCount == chunkCount * q;
    if n < chunkCount {
      MulMonotone(n, chunkCount - 1, q);
      Distribute(chunkCount, 1, q);
    }
    if n > chunkCount {
      MulMonotone(chunkCount, n - 1, q);
    }
  }
}
