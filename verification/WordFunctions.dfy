/** The logical functions of section 4.1.2 of FIPS 180-4, on 32-bit words. */
module WordFunctions {

  type Word = bv32

  /** Each bit of y or of z, as x chooses. */
  function Ch(x: Word, y: Word, z: Word): (r: Word)
    ensures r & x == y & x && r & !x == z & !x
  {
    (x & y) ^ (!x & z)
  }

  /** The majority of each bit. */
  function Maj(x: Word, y: Word, z: Word): (r: Word)
    ensures r == (x & y) | (z & (x | y))
  {
    (x & y) ^ (x & z) ^ (y & z)
  }

  /** The circular right shift of section 3.2. */
  function Rotr(x: Word, n: bv6): Word
    requires 0 < n < 32
  {
    (x >> n) | (x << (32 - n))
  }

  /** Rotating left by as much undoes it. */
  lemma RotrIsUndone(x: Word, n: bv6)
    requires 0 < n < 32
    ensures (Rotr(x, n) << n) | (Rotr(x, n) >> (32 - n)) == x
  {
  }

  function BigSigma0(x: Word): Word {
    Rotr(x, 2) ^ Rotr(x, 13) ^ Rotr(x, 22)
  }

  function BigSigma1(x: Word): Word {
    Rotr(x, 6) ^ Rotr(x, 11) ^ Rotr(x, 25)
  }

  function SmallSigma0(x: Word): Word {
    Rotr(x, 7) ^ Rotr(x, 18) ^ (x >> 3)
  }

  function SmallSigma1(x: Word): Word {
    Rotr(x, 17) ^ Rotr(x, 19) ^ (x >> 10)
  }
}
