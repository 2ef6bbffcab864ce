/** Bytes as numbers and as eight bits. */
module Octets {
  import opened Arithmetic
  import opened Common

  lemma OctetIsByte(x: bv8)
    ensures (x as int) as bv8 == x
  {
  }

  function BitAt(b: Byte, p: nat): nat
    requires p > 0
  {
    b / p % 2
  }

  lemma FourBits(b: Byte)
    ensures BitAt(b, 1) == if (b as bv8) & 0x1 != 0 then 1 else 0
    ensures BitAt(b, 2) == if (b as bv8) & 0x2 != 0 then 1 else 0
    ensures BitAt(b, 4) == if (b as bv8) & 0x4 != 0 then 1 else 0
    ensures BitAt(b, 8) == if (b as bv8) & 0x8 != 0 then 1 else 0
  {
  }

  lemma FourMoreBits(b: Byte)
    ensures BitAt(b, 16) == if (b as bv8) & 0x10 != 0 then 1 else 0
    ensures BitAt(b, 32) == if (b as bv8) & 0x20 != 0 then 1 else 0
    ensures BitAt(b, 64) == if (b as bv8) & 0x40 != 0 then 1 else 0
    ensures BitAt(b, 128) == if (b as bv8) & 0x80 != 0 then 1 else 0
  {
  }

  /** Equal above bit p, and so from it on. */
  predicate SameFrom(a: Byte, b: Byte, p: nat)
    requires p > 0
  {
    a / p == b / p
  }

  lemma Halves(b: Byte, p: nat)
    requires p > 0
    ensures b / p == 2 * (b / (2 * p)) + BitAt(b, p)
  {
    var q, r := b / p / 2, b / p % 2;
    assert b == (2 * q + r) * p + b % p;
    assert b == q * (2 * p) + (r * p + b % p);
    assert r * p + b % p < 2 * p;
    DivUnique(b, 2 * p, q, r * p + b % p);
  }

  lemma OneBitDown(a: Byte, b: Byte, p: nat)
    requires p > 0 && SameFrom(a, b, 2 * p) && BitAt(a, p) == BitAt(b, p)
    ensures SameFrom(a, b, p)
  {
    hide BitAt;
    Halves(a, p);
    Halves(b, p);
  }

  predicate SameBit(a: Byte, b: Byte, p: nat)
    requires p > 0
  {
    BitAt(a, p) == BitAt(b, p)
  }

  lemma SameHalves(a: Byte, b: Byte)
    requires SameBit(a, b, 1) && SameBit(a, b, 2) && SameBit(a, b, 4) && SameBit(a, b, 8)
    requires SameBit(a, b, 16) && SameBit(a, b, 32) && SameBit(a, b, 64) && SameBit(a, b, 128)
    ensures a == b
  {
    hide BitAt, SameFrom;
    SameFromTop(a, b);
    OneBitDown(a, b, 128);
    OneBitDown(a, b, 64);
    OneBitDown(a, b, 32);
    OneBitDown(a, b, 16);
    OneBitDown(a, b, 8);
    OneBitDown(a, b, 4);
    OneBitDown(a, b, 2);
    OneBitDown(a, b, 1);
    SameFromOne(a, b);
  }

  lemma SameFromTop(a: Byte, b: Byte)
    ensures SameFrom(a, b, 256)
  {
  }

  /** Equal bits are equal numbers. */
  lemma SameBits(a: Byte, b: Byte)
    requires a as bv8 == b as bv8
    ensures a == b
  {
    hide BitAt;
    FourBits(a);
    FourBits(b);
    FourMoreBits(a);
    FourMoreBits(b);
    SameHalves(a, b);
  }

  lemma SameFromOne(a: Byte, b: Byte)
    requires SameFrom(a, b, 1)
    ensures a == b
  {
  }

  lemma ByteIsOctet(b: Byte)
    ensures (b as bv8) as int == b
  {
    OctetIsByte(b as bv8);
    SameBits((b as bv8) as int, b);
  }
}
