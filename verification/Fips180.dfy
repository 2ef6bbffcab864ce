/** SHA-256 of a whole message, written from FIPS 180-4: the reference that the streaming
    code in Sha256.dfy is proved against. */
module Fips180 {
  import opened Arithmetic
  import opened Common
  import opened Octets
  import opened WordFunctions

  type HashValue = h: seq<Word> | |h| == 8 witness seq(8, _ => 0)
  type Block = b: seq<Byte> | |b| == 64 witness seq(64, _ => 0)

  /** Addition modulo 2^32. */
  function Plus(x: Word, y: Word): Word {
    x + y
  }

  // ---- section 4.2.2: the constants ----

  function RoundConstant(t: nat): Word {
    match t
    case 0 => 0x428a2f98 case 1 => 0x71374491 case 2 => 0xb5c0fbcf case 3 => 0xe9b5dba5
    case 4 => 0x3956c25b case 5 => 0x59f111f1 case 6 => 0x923f82a4 case 7 => 0xab1c5ed5
    case 8 => 0xd807aa98 case 9 => 0x12835b01 case 10 => 0x243185be case 11 => 0x550c7dc3
    case 12 => 0x72be5d74 case 13 => 0x80deb1fe case 14 => 0x9bdc06a7 case 15 => 0xc19bf174
    case 16 => 0xe49b69c1 case 17 => 0xefbe4786 case 18 => 0x0fc19dc6 case 19 => 0x240ca1cc
    case 20 => 0x2de92c6f case 21 => 0x4a7484aa case 22 => 0x5cb0a9dc case 23 => 0x76f988da
    case 24 => 0x983e5152 case 25 => 0xa831c66d case 26 => 0xb00327c8 case 27 => 0xbf597fc7
    case 28 => 0xc6e00bf3 case 29 => 0xd5a79147 case 30 => 0x06ca6351 case 31 => 0x14292967
    case 32 => 0x27b70a85 case 33 => 0x2e1b2138 case 34 => 0x4d2c6dfc case 35 => 0x53380d13
    case 36 => 0x650a7354 case 37 => 0x766a0abb case 38 => 0x81c2c92e case 39 => 0x92722c85
    case 40 => 0xa2bfe8a1 case 41 => 0xa81a664b case 42 => 0xc24b8b70 case 43 => 0xc76c51a3
    case 44 => 0xd192e819 case 45 => 0xd6990624 case 46 => 0xf40e3585 case 47 => 0x106aa070
    case 48 => 0x19a4c116 case 49 => 0x1e376c08 case 50 => 0x2748774c case 51 => 0x34b0bcb5
    case 52 => 0x391c0cb3 case 53 => 0x4ed8aa4a case 54 => 0x5b9cca4f case 55 => 0x682e6ff3
    case 56 => 0x748f82ee case 57 => 0x78a5636f case 58 => 0x84c87814 case 59 => 0x8cc70208
    case 60 => 0x90befffa case 61 => 0xa4506ceb case 62 => 0xbef9a3f7 case _ => 0xc67178f2
  }

  // ---- section 5.3.3: the initial hash value ----

  function InitialHash(): HashValue {
    [0x6a09e667, 0xbb67ae85, 0x3c6ef372, 0xa54ff53a, 0x510e527f, 0x9b05688c, 0x1f83d9ab, 0x5be0cd19]
  }

  // ---- section 3.1: words and numbers as big-endian bytes ----

  function Join(x0: bv8, x1: bv8, x2: bv8, x3: bv8): Word {
    ((x0 as Word) << 24) | ((x1 as Word) << 16) | ((x2 as Word) << 8) | (x3 as Word)
  }

  function WordOf(b0: Byte, b1: Byte, b2: Byte, b3: Byte): Word {
    Join(b0 as bv8, b1 as bv8, b2 as bv8, b3 as bv8)
  }

  function Octet(w: Word, n: bv6): bv8
    requires n < 32
  {
    ((w >> n) & 0xff) as bv8
  }

  /** The low-order byte of w shifted right by n. */
  function ByteAt(w: Word, n: bv6): Byte
    requires n < 32
  {
    Octet(w, n) as Byte
  }

  function BytesOf(w: Word): seq<Byte> {
    [ByteAt(w, 24), ByteAt(w, 16), ByteAt(w, 8), ByteAt(w, 0)]
  }

  /** The k low-order base-256 digits of n, most significant first. */
  function BigEndian(n: nat, k: nat): (s: seq<Byte>)
    ensures |s| == k
  {
    if k == 0 then [] else BigEndian(n / 256, k - 1) + [n % 256]
  }

  // ---- section 6.2.2: one block ----

  /** The message schedule, step 1. */
  function Schedule(b: Block, t: nat): Word
    requires t < 64
  {
    if t < 16 then
      WordOf(b[4 * t], b[4 * t + 1], b[4 * t + 2], b[4 * t + 3])
    else
      Plus(Plus(Plus(Schedule(b, t - 16), SmallSigma0(Schedule(b, t - 15))), Schedule(b, t - 7)),
           SmallSigma1(Schedule(b, t - 2)))
  }

  /** The eight working variables. */
  datatype Working = Working(a: Word, b: Word, c: Word, d: Word, e: Word, f: Word, g: Word, h: Word)

  function Round(v: Working, k: Word, w: Word): Working {
    var t1 := Plus(Plus(Plus(Plus(v.h, BigSigma1(v.e)), Ch(v.e, v.f, v.g)), k), w);
    var t2 := Plus(BigSigma0(v.a), Maj(v.a, v.b, v.c));
    Working(Plus(t1, t2), v.a, v.b, v.c, Plus(v.d, t1), v.e, v.f, v.g)
  }

  /** The working variables after the first t rounds, steps 2 and 3. */
  function Rounds(v: HashValue, b: Block, t: nat): Working
    requires t <= 64
  {
    if t == 0 then
      Working(v[0], v[1], v[2], v[3], v[4], v[5], v[6], v[7])
    else
      Round(Rounds(v, b, t - 1), RoundConstant(t - 1), Schedule(b, t - 1))
  }

  /** The next hash value, step 4. */
  function AddBack(v: HashValue, r: Working): HashValue {
    [Plus(v[0], r.a), Plus(v[1], r.b), Plus(v[2], r.c), Plus(v[3], r.d),
     Plus(v[4], r.e), Plus(v[5], r.f), Plus(v[6], r.g), Plus(v[7], r.h)]
  }

  function Compress(v: HashValue, b: Block): HashValue {
    AddBack(v, Rounds(v, b, 64))
  }

  // ---- sections 5.1.1, 5.2.1 and 6.2.2: a whole message ----

  type Compression = (HashValue, Block) -> HashValue

  /** The hash value after the first n 64-byte blocks of m: H(i) = f(H(i-1), M(i)). */
  function Iterate(f: Compression, v: HashValue, m: seq<Byte>, n: nat): HashValue
    requires 64 * n <= |m|
  {
    if n == 0 then v else f(Iterate(f, v, m, n - 1), m[64 * (n - 1)..64 * n])
  }

  function HashBlocks(m: seq<Byte>, n: nat): HashValue
    requires 64 * n <= |m|
  {
    Iterate(Compress, InitialHash(), m, n)
  }

  /** How many zero bytes follow the 0x80 byte. */
  function ZeroBytes(length: nat): nat {
    (55 - length) % 64
  }

  function Zeros(n: nat): (z: seq<Byte>)
    ensures |z| == n
    ensures forall i :: 0 <= i < n ==> z[i] == 0
  {
    seq(n, _ => 0)
  }

  /** m padded to whole blocks, ending in the 64-bit number bits. */
  function PadWith(m: seq<Byte>, bits: nat): (p: seq<Byte>)
    ensures |p| % 64 == 0
  {
    m + [0x80] + Zeros(ZeroBytes(|m|)) + BigEndian(bits, 8)
  }

  function Flatten(v: HashValue): seq<Byte> {
    BytesOf(v[0]) + BytesOf(v[1]) + BytesOf(v[2]) + BytesOf(v[3]) +
    BytesOf(v[4]) + BytesOf(v[5]) + BytesOf(v[6]) + BytesOf(v[7])
  }

  function HashPadded(p: seq<Byte>): seq<Byte>
    requires |p| % 64 == 0
  {
    Flatten(HashBlocks(p, |p| / 64))
  }

  /** The digest of m. FIPS 180-4 defines it for messages shorter than 2^64 bits. */
  function Digest(m: seq<Byte>): seq<Byte>
    requires |m| < 0x2000_0000_0000_0000
  {
    HashPadded(PadWith(m, 8 * |m|))
  }

  // ---- what the definitions above mean ----

  /** The first 64 primes. */
  function Prime(t: nat): nat {
    match t
    case 0 => 2 case 1 => 3 case 2 => 5 case 3 => 7 case 4 => 11 case 5 => 13 case 6 => 17 case 7 => 19
    case 8 => 23 case 9 => 29 case 10 => 31 case 11 => 37 case 12 => 41 case 13 => 43 case 14 => 47 case 15 => 53
    case 16 => 59 case 17 => 61 case 18 => 67 case 19 => 71 case 20 => 73 case 21 => 79 case 22 => 83 case 23 => 89
    case 24 => 97 case 25 => 101 case 26 => 103 case 27 => 107
    case 28 => 109 case 29 => 113 case 30 => 127 case 31 => 131
    case 32 => 137 case 33 => 139 case 34 => 149 case 35 => 151
    case 36 => 157 case 37 => 163 case 38 => 167 case 39 => 173
    case 40 => 179 case 41 => 181 case 42 => 191 case 43 => 193
    case 44 => 197 case 45 => 199 case 46 => 211 case 47 => 223
    case 48 => 227 case 49 => 229 case 50 => 233 case 51 => 239
    case 52 => 241 case 53 => 251 case 54 => 257 case 55 => 263
    case 56 => 269 case 57 => 271 case 58 => 277 case 59 => 281
    case 60 => 283 case 61 => 293 case 62 => 307 case _ => 311
  }

  function IntegerCubeRoot(p: nat): nat {
    if p < 8 then 1 else if p < 27 then 2 else if p < 64 then 3 else if p < 125 then 4 else if p < 216 then 5 else 6
  }

  /** f is the first 32 bits of the fractional part of the cube root of p, for p below 7 cubed. */
  predicate IsCubeRootFraction(f: Word, p: nat) {
    var r := 0x1_0000_0000 * IntegerCubeRoot(p) + f as int;
    r * r * r <= p * 0x1_0000_0000_0000_0000_0000_0000 < (r + 1) * (r + 1) * (r + 1)
  }

  /** f is the first 32 bits of the fractional part of the square root of p, for p below 5 squared. */
  predicate IsSquareRootFraction(f: Word, p: nat) {
    var r := 0x1_0000_0000 * (if p < 4 then 1 else if p < 9 then 2 else if p < 16 then 3 else 4) + f as int;
    r * r <= p * 0x1_0000_0000_0000_0000 < (r + 1) * (r + 1)
  }

  lemma FirstConstants(t: nat)
    requires t < 32
    ensures IsCubeRootFraction(RoundConstant(t), Prime(t))
  {
  }

  lemma LastConstants(t: nat)
    requires 32 <= t < 64
    ensures IsCubeRootFraction(RoundConstant(t), Prime(t))
  {
  }

  /** Section 4.2.2: each round constant is the start of the fraction of the cube root of a prime. */
  lemma ConstantsAreCubeRoots(t: nat)
    requires t < 64
    ensures IsCubeRootFraction(RoundConstant(t), Prime(t))
  {
    if t < 32 {
      FirstConstants(t);
    } else {
      LastConstants(t);
    }
  }

  /** Section 5.3.3: the initial hash value comes from the square roots of the first eight primes. */
  lemma InitialHashIsSquareRoots(i: nat)
    requires i < 8
    ensures IsSquareRootFraction(InitialHash()[i], Prime(i))
  {
    match i
    case 0 => case 1 => case 2 => case 3 => case 4 => case 5 => case 6 => case _ =>
  }

  /** Section 5.1.1 asks for the smallest k >= 0 with l + 1 + k = 448 mod 512, all in bits.
      The 0x80 byte holds the 1 bit and seven of the k zeros. */
  lemma ZeroBytesIsMinimal(length: nat, k: nat)
    requires (8 * length + 1 + k) % 512 == 448
    ensures (8 * length + 1 + (7 + 8 * ZeroBytes(length))) % 512 == 448
    ensures 7 + 8 * ZeroBytes(length) <= k
  {
    var z := ZeroBytes(length);
    assert (length + 1 + z) % 64 == 56;
    assert length + 1 + z == 64 * ((length + 1 + z) / 64) + 56;
    assert 7 + 8 * z < 512;
  }

  function Value(s: seq<Byte>): nat {
    if s == [] then 0 else 256 * Value(s[..|s| - 1]) + s[|s| - 1]
  }

  function Pow256(k: nat): (p: nat)
    ensures p > 0
  {
    if k == 0 then 1 else 256 * Pow256(k - 1)
  }

  /** Reading the digits back gives the number modulo 256^k. */
  lemma {:induction false} BigEndianIsPositional(n: nat, k: nat)
    ensures Value(BigEndian(n, k)) == n % Pow256(k)
  {
    if k > 0 {
      assert BigEndian(n, k)[..k - 1] == BigEndian(n / 256, k - 1);
      BigEndianIsPositional(n / 256, k - 1);
      DivThenMod(n, Pow256(k - 1));
    }
  }

  /** Each digit is the number shifted right by whole bytes. */
  lemma {:induction false} DigitIsShift(n: nat, k: nat, i: nat)
    requires i < k
    ensures BigEndian(n, k)[i] == (n / Pow256(k - 1 - i)) % 256
  {
    if i < k - 1 {
      DigitIsShift(n / 256, k - 1, i);
      DivDiv(n, Pow256(k - 2 - i));
    }
  }

  lemma DivDiv(n: nat, p: nat)
    requires p > 0
    ensures (n / 256) / p == n / (256 * p)
  {
    var q := (n / 256) / p;
    assert n / 256 == q * p + (n / 256) % p;
    assert 256 * (q * p) == q * (256 * p);
    DivUnique(n, 256 * p, q, 256 * ((n / 256) % p) + n % 256);
  }

  lemma DivThenMod(n: nat, p: nat)
    requires p > 0
    ensures 256 * ((n / 256) % p) + n % 256 == n % (256 * p)
  {
    var q := (n / 256) / p;
    assert n / 256 == q * p + (n / 256) % p;
    assert 256 * (q * p) == q * (256 * p);
    DivUnique(n, 256 * p, q, 256 * ((n / 256) % p) + n % 256);
  }

  lemma JoinRoundTrip(x0: bv8, x1: bv8, x2: bv8, x3: bv8, w: Word)
    ensures var v := Join(x0, x1, x2, x3);
            Octet(v, 24) == x0 && Octet(v, 16) == x1 && Octet(v, 8) == x2 && Octet(v, 0) == x3
    ensures Join(Octet(w, 24), Octet(w, 16), Octet(w, 8), Octet(w, 0)) == w
  {
  }

  /** Words and their bytes determine each other. */
  lemma WordRoundTrip(w: Word, b0: Byte, b1: Byte, b2: Byte, b3: Byte)
    ensures BytesOf(WordOf(b0, b1, b2, b3)) == [b0, b1, b2, b3]
    ensures var s := BytesOf(w); WordOf(s[0], s[1], s[2], s[3]) == w
  {
    hide Join, Octet;
    JoinRoundTrip(b0 as bv8, b1 as bv8, b2 as bv8, b3 as bv8, w);
    ByteIsOctet(b0);
    OctetIsByte(Octet(w, 24));
    ByteIsOctet(b1);
    OctetIsByte(Octet(w, 16));
    ByteIsOctet(b2);
    OctetIsByte(Octet(w, 8));
    ByteIsOctet(b3);
    OctetIsByte(Octet(w, 0));
  }

  /** Blocks already hashed do not change when the message grows. */
  lemma {:induction false} IteratePrefix(f: Compression, v: HashValue, m: seq<Byte>, m': seq<Byte>, n: nat)
    requires 64 * n <= |m| && m <= m'
    ensures Iterate(f, v, m, n) == Iterate(f, v, m', n)
  {
    if n > 0 {
      IteratePrefix(f, v, m, m', n - 1);
      assert m[64 * (n - 1)..64 * n] == m'[64 * (n - 1)..64 * n];
    }
  }
}
