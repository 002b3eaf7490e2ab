/** `uint32_t` arithmetic as the i386 kernel does it: values wrap at 2^32, and
    a value printed with `%d` is read as a two's-complement `int`. */
module Uint32 {

  /** 2^32: addresses and words are 32 bits wide. */
  const U32: int := 0x1_0000_0000

  /** A 32-bit word. */
  type Word = x: int | 0 <= x < U32

  /** `uint32_t` addition. */
  function Add32(a: int, b: int): (r: Word)
    ensures (r - a - b) % U32 == 0
  {
    (a + b) % U32
  }

  /** A `uint32_t` value read back as a two's-complement 32-bit `int`. */
  function Signed32(x: Word): (r: int)
    ensures -U32 / 2 <= r < U32 / 2 && (r - x) % U32 == 0
    ensures 0 <= r <==> x < U32 / 2
  {
    if x < U32 / 2 then x else x - U32
  }
}
