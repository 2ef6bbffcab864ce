/** The one-block example published with FIPS 180-4: the message "abc", worked through round by round. */
module Fips180Example {
  import opened Common
  import opened Fips180
  import opened WordFunctions

  const ABC: seq<Byte> := [0x61, 0x62, 0x63]

  /** The message schedule of the example. */
  function W(t: nat): Word {
    match t
    case 0 => 0x61626380 case 1 => 0x00000000 case 2 => 0x00000000 case 3 => 0x00000000 case 4 => 0x00000000
    case 5 => 0x00000000 case 6 => 0x00000000 case 7 => 0x00000000 case 8 => 0x00000000 case 9 => 0x00000000
    case 10 => 0x00000000 case 11 => 0x00000000 case 12 => 0x00000000 case 13 => 0x00000000 case 14 => 0x00000000
    case 15 => 0x00000018 case 16 => 0x61626380 case 17 => 0x000f0000 case 18 => 0x7da86405 case 19 => 0x600003c6
    case 20 => 0x3e9d7b78 case 21 => 0x0183fc00 case 22 => 0x12dcbfdb case 23 => 0xe2e2c38e case 24 => 0xc8215c1a
    case 25 => 0xb73679a2 case 26 => 0xe5bc3909 case 27 => 0x32663c5b case 28 => 0x9d209d67 case 29 => 0xec8726cb
    case 30 => 0x702138a4 case 31 => 0xd3b7973b case 32 => 0x93f5997f case 33 => 0x3b68ba73 case 34 => 0xaff4ffc1
    case 35 => 0xf10a5c62 case 36 => 0x0a8b3996 case 37 => 0x72af830a case 38 => 0x9409e33e case 39 => 0x24641522
    case 40 => 0x9f47bf94 case 41 => 0xf0a64f5a case 42 => 0x3e246a79 case 43 => 0x27333ba3 case 44 => 0x0c4763f2
    case 45 => 0x840abf27 case 46 => 0x7a290d5d case 47 => 0x065c43da case 48 => 0xfb3e89cb case 49 => 0xcc7617db
    case 50 => 0xb9e66c34 case 51 => 0xa9993667 case 52 => 0x84badedd case 53 => 0xc21462bc case 54 => 0x1487472c
    case 55 => 0xb20f7a99 case 56 => 0xef57b9cd case 57 => 0xebe6b238 case 58 => 0x9fe3095e case 59 => 0x78bc8d4b
    case 60 => 0xa43fcf15 case 61 => 0x668b2ff8 case 62 => 0xeeaba2cc case _ => 0x12b1edeb
  }

  /** The values of the variable a, beginning three rounds early: b, c and d are a one, two and three rounds late. */
  function A(t: nat): Word {
    match t
    case 0 => 0xa54ff53a case 1 => 0x3c6ef372 case 2 => 0xbb67ae85 case 3 => 0x6a09e667 case 4 => 0x5d6aebcd
    case 5 => 0x5a6ad9ad case 6 => 0xc8c347a7 case 7 => 0xd550f666 case 8 => 0x04409a6a case 9 => 0x2b4209f5
    case 10 => 0xe5030380 case 11 => 0x85a07b5f case 12 => 0x8e04ecb9 case 13 => 0x8c87346b case 14 => 0x4798a3f4
    case 15 => 0xf71fc5a9 case 16 => 0x87912990 case 17 => 0xd932eb16 case 18 => 0xc0645fde case 19 => 0xb0fa238e
    case 20 => 0x21da9a9b case 21 => 0xc2fbd9d1 case 22 => 0xfe777bbf case 23 => 0xe1f20c33 case 24 => 0x9dc68b63
    case 25 => 0xc2606d6d case 26 => 0xa7a3623f case 27 => 0xc5d53d8d case 28 => 0x1c2c2838 case 29 => 0xcde8037d
    case 30 => 0xb62ec4bc case 31 => 0x77d37528 case 32 => 0x363482c9 case 33 => 0xa0060b30 case 34 => 0xea992a22
    case 35 => 0x73b33bf5 case 36 => 0x98e12507 case 37 => 0xfe604df5 case 38 => 0xa9a7738c case 39 => 0x65a0cfe4
    case 40 => 0x41a65cb1 case 41 => 0x34df1604 case 42 => 0x6dc57a8a case 43 => 0x79ea687a case 44 => 0xd6670766
    case 45 => 0xdf46652f case 46 => 0x17aa0dfe case 47 => 0x9d4baf93 case 48 => 0x26628815 case 49 => 0x72ab4b91
    case 50 => 0xa14c14b0 case 51 => 0x4172328d case 52 => 0x05757ceb case 53 => 0xf11bfaa8 case 54 => 0x7a0508a1
    case 55 => 0x886e7a22 case 56 => 0x101fd28f case 57 => 0xf5702fdb case 58 => 0x3ec45cdb case 59 => 0x38cc9913
    case 60 => 0xfcd1887b case 61 => 0xc062d46f case 62 => 0xffb70472 case 63 => 0xb6ae8fff case 64 => 0xb85e2ce9
    case 65 => 0x04d24d6c case 66 => 0xd39a2165 case _ => 0x506e3058
  }

  /** The values of e, which f, g and h follow. */
  function E(t: nat): Word {
    match t
    case 0 => 0x5be0cd19 case 1 => 0x1f83d9ab case 2 => 0x9b05688c case 3 => 0x510e527f case 4 => 0xfa2a4622
    case 5 => 0x78ce7989 case 6 => 0xf92939eb case 7 => 0x24e00850 case 8 => 0x43ada245 case 9 => 0x714260ad
    case 10 => 0x9b27a401 case 11 => 0x0c657a79 case 12 => 0x32ca2d8c case 13 => 0x1cc92596 case 14 => 0x436b23e8
    case 15 => 0x816fd6e9 case 16 => 0x1e578218 case 17 => 0x745a48de case 18 => 0x0b92f20c case 19 => 0x07590dcd
    case 20 => 0x8034229c case 21 => 0x846ee454 case 22 => 0xcc899961 case 23 => 0xb0638179 case 24 => 0x8ada8930
    case 25 => 0xe1257970 case 26 => 0x49f5114a case 27 => 0xaa47c347 case 28 => 0x2823ef91 case 29 => 0x14383d8e
    case 30 => 0xc74c6516 case 31 => 0xedffbff8 case 32 => 0x6112a3b7 case 33 => 0xade79437 case 34 => 0x0109ab3a
    case 35 => 0xba591112 case 36 => 0x9cd9f5f6 case 37 => 0x59249dd3 case 38 => 0x085f3833 case 39 => 0xf4b002d6
    case 40 => 0x0772a26b case 41 => 0xa507a53d case 42 => 0xf0781bc8 case 43 => 0x1efbc0a0 case 44 => 0x26352d63
    case 45 => 0x838b2711 case 46 => 0xdecd4715 case 47 => 0xfda24c2e case 48 => 0xa80f11f0 case 49 => 0xb7755da1
    case 50 => 0xd57b94a9 case 51 => 0xfecf0bc6 case 52 => 0xbd714038 case 53 => 0x6e5c390c case 54 => 0x52f1ccf7
    case 55 => 0x49231c1e case 56 => 0x529e7d00 case 57 => 0x9f4787c3 case 58 => 0xe50e1b4f case 59 => 0x54cb266b
    case 60 => 0x9b5e906c case 61 => 0x7e44008e case 62 => 0x6d83bfc6 case 63 => 0xb21bad3d case 64 => 0x961f4894
    case 65 => 0x948d25b6 case 66 => 0xfb121210 case _ => 0x5ef50f24
  }

  /** The first temporary word of each round. */
  function T1(t: nat): Word {
    match t
    case 0 => 0x54da50e8 case 1 => 0x3c5f8617 case 2 => 0x3dc18b66 case 3 => 0xbad621e9 case 4 => 0xe642b678
    case 5 => 0x16d78700 case 6 => 0xd2645c5a case 7 => 0x37148413 case 8 => 0x2e899322 case 9 => 0xf1871ba1
    case 10 => 0x5e682068 case 11 => 0xfbcf5b8a case 12 => 0x9052955f case 13 => 0xe7d31473 case 14 => 0xc3fa4e18
    case 15 => 0x10394824 case 16 => 0xf8a2f90c case 17 => 0xab3bf93e case 18 => 0x0c253983 case 19 => 0xff695deb
    case 20 => 0x68ffee95 case 21 => 0x1e299f9f case 22 => 0x4b7d958b case 23 => 0xc855b714 case 24 => 0x8a5d642e
    case 25 => 0x51d7d021 case 26 => 0x1fa902d7 case 27 => 0x282a826b case 28 => 0x44e67b7f case 29 => 0xdfff90ba
    case 30 => 0x4adae67e case 31 => 0x42859bea case 32 => 0x66a5732d case 33 => 0xb91e92a3 case 34 => 0x1dc60e11
    case 35 => 0x80fcc6e1 case 36 => 0x6e917d64 case 37 => 0xa6a75748 case 38 => 0x46d0a83c case 39 => 0xb95af0bc
    case 40 => 0xe48ed0b2 case 41 => 0x4eac110d case 42 => 0x7107cc8b case 43 => 0x83b7e3b4 case 44 => 0xd1a80a8a
    case 45 => 0xd82ef872 case 46 => 0xbdd186ab case 47 => 0x61835c33 case 48 => 0x970eb823 case 49 => 0xfbb0ed7b
    case 50 => 0xb1a5b847 case 51 => 0x07b0e991 case 52 => 0x4d290015 case 53 => 0xae2b8d1b case 54 => 0x6b0912ae
    case 55 => 0xcc5cac49 case 56 => 0x8b3ebddd case 57 => 0x88d3d0b3 case 58 => 0x2ebf62eb case 59 => 0x794f142a
    case 60 => 0x994dc019 case 61 => 0xd42a5147 case 62 => 0xfb5b0d9e case _ => 0xa8467f25
  }

  function Trace(t: nat): Working {
    Working(A(t + 3), A(t + 2), A(t + 1), A(t), E(t + 3), E(t + 2), E(t + 1), E(t))
  }

  // ---- the block ----

  ghost function Padded(): (p: Block) {
    LengthOfPadded();
    PadWith(ABC, 24)
  }

  lemma LengthOfPadded()
    ensures |PadWith(ABC, 24)| == 64
  {
  }

  lemma PaddedBytes(i: nat)
    requires i < 64
    ensures Padded()[i] == if i < 3 then ABC[i] else if i == 3 then 0x80 else if i == 63 then 24 else 0
  {
    hide BigEndian;
    LengthOfPadded();
    var head, zeros := ABC + [0x80], Zeros(ZeroBytes(|ABC|));
    assert Padded() == head + zeros + BigEndian(24, 8);
    if i < 4 {
      assert Padded()[i] == head[i];
    } else if i < 56 {
      assert Padded()[i] == zeros[i - 4];
    } else {
      assert Padded()[i] == BigEndian(24, 8)[i - 56];
      LastDigits(i - 56);
    }
  }

  lemma LastDigits(i: nat)
    requires i < 8
    ensures BigEndian(24, 8)[i] == if i == 7 then 24 else 0
  {
    hide BigEndian, Pow256;
    DigitIsShift(24, 8, i);
    LargePowers(7 - i);
    SmallQuotient(24, Pow256(7 - i));
  }

  lemma SmallQuotient(n: nat, p: nat)
    requires p > 0
    ensures n < p ==> n / p == 0
    ensures p == 1 ==> n / p == n
  {
  }

  lemma LargePowers(k: nat)
    ensures k == 0 ==> Pow256(k) == 1
    ensures k > 0 ==> Pow256(k) >= 256
  {
  }

  lemma WordsOfBytes()
    ensures WordOf(0x61, 0x62, 0x63, 0x80) == 0x61626380 && WordOf(0, 0, 0, 24) == 0x18 && WordOf(0, 0, 0, 0) == 0
  {
  }

  lemma FirstWords(t: nat)
    requires t < 16
    ensures Schedule(Padded(), t) == W(t)
  {
    hide Padded, WordOf;
    PaddedBytes(4 * t);
    PaddedBytes(4 * t + 1);
    PaddedBytes(4 * t + 2);
    PaddedBytes(4 * t + 3);
    WordsOfBytes();
  }

  // ---- the schedule ----

  lemma ScheduleTable(t: nat)
    requires 16 <= t < 64
    ensures Plus(Plus(Plus(W(t - 16), SmallSigma0(W(t - 15))), W(t - 7)), SmallSigma1(W(t - 2))) == W(t)
  {
    match t
    case 16 => case 17 => case 18 => case 19 => case 20 => case 21 => case 22 => case 23 =>
    case 24 => case 25 => case 26 => case 27 => case 28 => case 29 => case 30 => case 31 =>
    case 32 => case 33 => case 34 => case 35 => case 36 => case 37 => case 38 => case 39 =>
    case 40 => case 41 => case 42 => case 43 => case 44 => case 45 => case 46 => case 47 =>
    case 48 => case 49 => case 50 => case 51 => case 52 => case 53 => case 54 => case 55 =>
    case 56 => case 57 => case 58 => case 59 => case 60 => case 61 => case 62 => case _ =>
  }

  lemma {:induction false} ScheduleIs(t: nat)
    requires t < 64
    ensures Schedule(Padded(), t) == W(t)
  {
    hide W, Padded, SmallSigma0, SmallSigma1, WordOf, Plus;
    if t < 16 {
      FirstWords(t);
    } else {
      ScheduleIs(t - 16);
      ScheduleIs(t - 15);
      ScheduleIs(t - 7);
      ScheduleIs(t - 2);
      ScheduleTable(t);
    }
  }

  // ---- the rounds ----

  predicate T1Follows(t: nat) {
    Plus(Plus(Plus(Plus(E(t), BigSigma1(E(t + 3))), Ch(E(t + 3), E(t + 2), E(t + 1))), RoundConstant(t)), W(t)) == T1(t)
  }

  predicate EFollows(t: nat) {
    Plus(A(t), T1(t)) == E(t + 4)
  }

  predicate AFollows(t: nat) {
    Plus(T1(t), Plus(BigSigma0(A(t + 3)), Maj(A(t + 3), A(t + 2), A(t + 1)))) == A(t + 4)
  }

  lemma FirstRoundsOfT1(t: nat)
    requires 0 <= t < 32
    ensures T1Follows(t)
  {
    match t
    case 0 => case 1 => case 2 => case 3 => case 4 => case 5 => case 6 => case 7 =>
    case 8 => case 9 => case 10 => case 11 => case 12 => case 13 => case 14 => case 15 =>
    case 16 => case 17 => case 18 => case 19 => case 20 => case 21 => case 22 => case 23 =>
    case 24 => case 25 => case 26 => case 27 => case 28 => case 29 => case 30 => case _ =>
  }

  lemma LastRoundsOfT1(t: nat)
    requires 32 <= t < 64
    ensures T1Follows(t)
  {
    match t
    case 32 => case 33 => case 34 => case 35 => case 36 => case 37 => case 38 => case 39 =>
    case 40 => case 41 => case 42 => case 43 => case 44 => case 45 => case 46 => case 47 =>
    case 48 => case 49 => case 50 => case 51 => case 52 => case 53 => case 54 => case 55 =>
    case 56 => case 57 => case 58 => case 59 => case 60 => case 61 => case 62 => case _ =>
  }

  lemma AllRoundsOfE(t: nat)
    requires 0 <= t < 64
    ensures EFollows(t)
  {
    match t
    case 0 => case 1 => case 2 => case 3 => case 4 => case 5 => case 6 => case 7 =>
    case 8 => case 9 => case 10 => case 11 => case 12 => case 13 => case 14 => case 15 =>
    case 16 => case 17 => case 18 => case 19 => case 20 => case 21 => case 22 => case 23 =>
    case 24 => case 25 => case 26 => case 27 => case 28 => case 29 => case 30 => case 31 =>
    case 32 => case 33 => case 34 => case 35 => case 36 => case 37 => case 38 => case 39 =>
    case 40 => case 41 => case 42 => case 43 => case 44 => case 45 => case 46 => case 47 =>
    case 48 => case 49 => case 50 => case 51 => case 52 => case 53 => case 54 => case 55 =>
    case 56 => case 57 => case 58 => case 59 => case 60 => case 61 => case 62 => case _ =>
  }

  lemma FirstRoundsOfA(t: nat)
    requires 0 <= t < 32
    ensures AFollows(t)
  {
    match t
    case 0 => case 1 => case 2 => case 3 => case 4 => case 5 => case 6 => case 7 =>
    case 8 => case 9 => case 10 => case 11 => case 12 => case 13 => case 14 => case 15 =>
    case 16 => case 17 => case 18 => case 19 => case 20 => case 21 => case 22 => case 23 =>
    case 24 => case 25 => case 26 => case 27 => case 28 => case 29 => case 30 => case _ =>
  }

  lemma LastRoundsOfA(t: nat)
    requires 32 <= t < 64
    ensures AFollows(t)
  {
    match t
    case 32 => case 33 => case 34 => case 35 => case 36 => case 37 => case 38 => case 39 =>
    case 40 => case 41 => case 42 => case 43 => case 44 => case 45 => case 46 => case 47 =>
    case 48 => case 49 => case 50 => case 51 => case 52 => case 53 => case 54 => case 55 =>
    case 56 => case 57 => case 58 => case 59 => case 60 => case 61 => case 62 => case _ =>
  }

  lemma RoundTable(t: nat)
    requires t < 64
    ensures Round(Trace(t), RoundConstant(t), W(t)) == Trace(t + 1)
  {
    hide A, E, W, RoundConstant, BigSigma0, BigSigma1, Ch, Maj, Plus, T1, T1Follows, EFollows, AFollows;
    AllRoundsOfE(t);
    if t < 32 {
      FirstRoundsOfT1(t);
      FirstRoundsOfA(t);
    } else {
      LastRoundsOfT1(t);
      LastRoundsOfA(t);
    }
    RoundFollows(t);
  }

  lemma RoundFollows(t: nat)
    requires T1Follows(t) && EFollows(t) && AFollows(t)
    ensures Round(Trace(t), RoundConstant(t), W(t)) == Trace(t + 1)
  {
    hide A, E, W, RoundConstant, BigSigma0, BigSigma1, Ch, Maj, Plus, T1;
  }

  lemma {:induction false} RoundsAre(t: nat)
    requires t <= 64
    ensures Rounds(InitialHash(), Padded(), t) == Trace(t)
  {
    if t == 0 {
      hide Padded;
    } else {
      hide Round, Trace, Padded, W, RoundConstant, Schedule;
      RoundsAre(t - 1);
      ScheduleIs(t - 1);
      RoundTable(t - 1);
    }
  }

  // ---- the digest ----

  function Hashed(): HashValue {
    [0xba7816bf, 0x8f01cfea, 0x414140de, 0x5dae2223, 0xb00361a3, 0x96177a9c, 0xb410ff61, 0xf20015ad]
  }

  lemma CompressedIs()
    ensures Compress(InitialHash(), Padded()) == Hashed()
  {
    hide Rounds, Padded;
    RoundsAre(64);
  }

  lemma FirstBytes()
    ensures BytesOf(0xba7816bf) == [0xba, 0x78, 0x16, 0xbf]
    ensures BytesOf(0x8f01cfea) == [0x8f, 0x01, 0xcf, 0xea]
    ensures BytesOf(0x414140de) == [0x41, 0x41, 0x40, 0xde]
    ensures BytesOf(0x5dae2223) == [0x5d, 0xae, 0x22, 0x23]
  {
  }

  lemma LastBytes()
    ensures BytesOf(0xb00361a3) == [0xb0, 0x03, 0x61, 0xa3]
    ensures BytesOf(0x96177a9c) == [0x96, 0x17, 0x7a, 0x9c]
    ensures BytesOf(0xb410ff61) == [0xb4, 0x10, 0xff, 0x61]
    ensures BytesOf(0xf20015ad) == [0xf2, 0x00, 0x15, 0xad]
  {
  }

  lemma FlattenedIs()
    ensures Flatten(Hashed())
         == [0xba, 0x78, 0x16, 0xbf, 0x8f, 0x01, 0xcf, 0xea,
             0x41, 0x41, 0x40, 0xde, 0x5d, 0xae, 0x22, 0x23,
             0xb0, 0x03, 0x61, 0xa3, 0x96, 0x17, 0x7a, 0x9c,
             0xb4, 0x10, 0xff, 0x61, 0xf2, 0x00, 0x15, 0xad]
  {
    hide BytesOf;
    FirstBytes();
    LastBytes();
  }

  lemma OneBlock(p: Block)
    ensures HashPadded(p) == Flatten(Compress(InitialHash(), p))
  {
    hide Compress, InitialHash, Flatten;
    assert p[0..64] == p;
    assert Iterate(Compress, InitialHash(), p, 0) == InitialHash();
  }

  /** The digest of "abc" is the published one. */
  lemma DigestOfAbc()
    ensures Digest(ABC)
         == [0xba, 0x78, 0x16, 0xbf, 0x8f, 0x01, 0xcf, 0xea,
             0x41, 0x41, 0x40, 0xde, 0x5d, 0xae, 0x22, 0x23,
             0xb0, 0x03, 0x61, 0xa3, 0x96, 0x17, 0x7a, 0x9c,
             0xb4, 0x10, 0xff, 0x61, 0xf2, 0x00, 0x15, 0xad]
  {
    hide Compress, Flatten, HashPadded, InitialHash, Hashed, PadWith;
    LengthOfPadded();
    OneBlock(Padded());
    CompressedIs();
    FlattenedIs();
  }
}
