/** Machine words: their sizes and their exclusive or. */
module Words {
  import opened Wrappers
  import opened Bits

  const WORD: int := 0x1_0000_0000
  const LONG: int := 0x1_0000_0000_0000_0000
  const U32_MAX: U32 := 0xFFFF_FFFF
  const U64_MAX: U64 := 0xFFFF_FFFF_FFFF_FFFF

  function Xor32(a: U32, b: U32): U32 {
    Pow2Values();
    Xor(32, a, b)
  }

  function Xor64(a: U64, b: U64): U64 {
    Pow2Values();
    Xor(64, a, b)
  }
}
