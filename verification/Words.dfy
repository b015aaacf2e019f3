/** The unsigned 32-bit words of the source: `uint32_t`, and `size_t` under the `-m32` build. */
module Words {

  const MODULUS: nat := 0x1_0000_0000

  type Word = x: nat | x < MODULUS

  /** Addition that wraps modulo 2^32. */
  function Add32(a: Word, b: Word): (r: Word)
    ensures r == (a + b) % MODULUS
  {
    if a + b < MODULUS then a + b else a + b - MODULUS
  }

  /** Multiplication that wraps modulo 2^32. */
  function Mul32(a: Word, b: Word): Word {
    (a * b) % MODULUS
  }
}
