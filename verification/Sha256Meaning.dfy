/** What Sha256 computes, in the terms of FIPS 180-4: the constants by their definition, the functions bit
    by bit, the schedule and the rounds by their recurrences. */
module Sha256Meaning {
  import opened Bytes
  import opened Gf2Polynomials
  import Positional
  import opened Sha256
  import opened Sha256Compression

  // ----- the constants -----

  /** n is the whole part of the cube root of p, and k the first 32 bits of its fractional part. */
  predicate CubeRoot(p: int, n: int, k: int) {
    && 0 <= k < 0x1_0000_0000
    && var r := n * 0x1_0000_0000 + k;
    r * r * r <= p * 0x1_00000000_00000000_00000000 < (r + 1) * (r + 1) * (r + 1)
  }

  lemma Roots0()
    ensures CubeRoot(2, 1, 0x428a2f98) && CubeRoot(3, 1, 0x71374491) && CubeRoot(5, 1, 0xb5c0fbcf)
      && CubeRoot(7, 1, 0xe9b5dba5)
    ensures CubeRoot(11, 2, 0x3956c25b) && CubeRoot(13, 2, 0x59f111f1) && CubeRoot(17, 2, 0x923f82a4)
      && CubeRoot(19, 2, 0xab1c5ed5)
  {
  }

  lemma RoundConstants0()
    ensures CubeRoot(2, 1, KTable(0)) && CubeRoot(3, 1, KTable(1)) && CubeRoot(5, 1, KTable(2))
      && CubeRoot(7, 1, KTable(3))
    ensures CubeRoot(11, 2, KTable(4)) && CubeRoot(13, 2, KTable(5)) && CubeRoot(17, 2, KTable(6))
      && CubeRoot(19, 2, KTable(7))
  {
    hide CubeRoot;
    Roots0();
  }

  lemma Roots1()
    ensures CubeRoot(23, 2, 0xd807aa98) && CubeRoot(29, 3, 0x12835b01) && CubeRoot(31, 3, 0x243185be)
      && CubeRoot(37, 3, 0x550c7dc3)
    ensures CubeRoot(41, 3, 0x72be5d74) && CubeRoot(43, 3, 0x80deb1fe) && CubeRoot(47, 3, 0x9bdc06a7)
      && CubeRoot(53, 3, 0xc19bf174)
  {
  }

  lemma RoundConstants1()
    ensures CubeRoot(23, 2, KTable(8)) && CubeRoot(29, 3, KTable(9)) && CubeRoot(31, 3, KTable(10))
      && CubeRoot(37, 3, KTable(11))
    ensures CubeRoot(41, 3, KTable(12)) && CubeRoot(43, 3, KTable(13)) && CubeRoot(47, 3, KTable(14))
      && CubeRoot(53, 3, KTable(15))
  {
    hide CubeRoot;
    Roots1();
  }

  lemma Roots2()
    ensures CubeRoot(59, 3, 0xe49b69c1) && CubeRoot(61, 3, 0xefbe4786) && CubeRoot(67, 4, 0x0fc19dc6)
      && CubeRoot(71, 4, 0x240ca1cc)
    ensures CubeRoot(73, 4, 0x2de92c6f) && CubeRoot(79, 4, 0x4a7484aa) && CubeRoot(83, 4, 0x5cb0a9dc)
      && CubeRoot(89, 4, 0x76f988da)
  {
  }

  lemma RoundConstants2()
    ensures CubeRoot(59, 3, KTable(16)) && CubeRoot(61, 3, KTable(17)) && CubeRoot(67, 4, KTable(18))
      && CubeRoot(71, 4, KTable(19))
    ensures CubeRoot(73, 4, KTable(20)) && CubeRoot(79, 4, KTable(21)) && CubeRoot(83, 4, KTable(22))
      && CubeRoot(89, 4, KTable(23))
  {
    hide CubeRoot;
    Roots2();
  }

  lemma Roots3()
    ensures CubeRoot(97, 4, 0x983e5152) && CubeRoot(101, 4, 0xa831c66d) && CubeRoot(103, 4, 0xb00327c8)
      && CubeRoot(107, 4, 0xbf597fc7)
    ensures CubeRoot(109, 4, 0xc6e00bf3) && CubeRoot(113, 4, 0xd5a79147) && CubeRoot(127, 5, 0x06ca6351)
      && CubeRoot(131, 5, 0x14292967)
  {
  }

  lemma RoundConstants3()
    ensures CubeRoot(97, 4, KTable(24)) && CubeRoot(101, 4, KTable(25)) && CubeRoot(103, 4, KTable(26))
      && CubeRoot(107, 4, KTable(27))
    ensures CubeRoot(109, 4, KTable(28)) && CubeRoot(113, 4, KTable(29)) && CubeRoot(127, 5, KTable(30))
      && CubeRoot(131, 5, KTable(31))
  {
    hide CubeRoot;
    Roots3();
  }

  lemma Roots4()
    ensures CubeRoot(137, 5, 0x27b70a85) && CubeRoot(139, 5, 0x2e1b2138) && CubeRoot(149, 5, 0x4d2c6dfc)
      && CubeRoot(151, 5, 0x53380d13)
    ensures CubeRoot(157, 5, 0x650a7354) && CubeRoot(163, 5, 0x766a0abb) && CubeRoot(167, 5, 0x81c2c92e)
      && CubeRoot(173, 5, 0x92722c85)
  {
  }

  lemma RoundConstants4()
    ensures CubeRoot(137, 5, KTable(32)) && CubeRoot(139, 5, KTable(33)) && CubeRoot(149, 5, KTable(34))
      && CubeRoot(151, 5, KTable(35))
    ensures CubeRoot(157, 5, KTable(36)) && CubeRoot(163, 5, KTable(37)) && CubeRoot(167, 5, KTable(38))
      && CubeRoot(173, 5, KTable(39))
  {
    hide CubeRoot;
    Roots4();
  }

  lemma Roots5()
    ensures CubeRoot(179, 5, 0xa2bfe8a1) && CubeRoot(181, 5, 0xa81a664b) && CubeRoot(191, 5, 0xc24b8b70)
      && CubeRoot(193, 5, 0xc76c51a3)
    ensures CubeRoot(197, 5, 0xd192e819) && CubeRoot(199, 5, 0xd6990624) && CubeRoot(211, 5, 0xf40e3585)
      && CubeRoot(223, 6, 0x106aa070)
  {
  }

  lemma RoundConstants5()
    ensures CubeRoot(179, 5, KTable(40)) && CubeRoot(181, 5, KTable(41)) && CubeRoot(191, 5, KTable(42))
      && CubeRoot(193, 5, KTable(43))
    ensures CubeRoot(197, 5, KTable(44)) && CubeRoot(199, 5, KTable(45)) && CubeRoot(211, 5, KTable(46))
      && CubeRoot(223, 6, KTable(47))
  {
    hide CubeRoot;
    Roots5();
  }

  lemma Roots6()
    ensures CubeRoot(227, 6, 0x19a4c116) && CubeRoot(229, 6, 0x1e376c08) && CubeRoot(233, 6, 0x2748774c)
      && CubeRoot(239, 6, 0x34b0bcb5)
    ensures CubeRoot(241, 6, 0x391c0cb3) && CubeRoot(251, 6, 0x4ed8aa4a) && CubeRoot(257, 6, 0x5b9cca4f)
      && CubeRoot(263, 6, 0x682e6ff3)
  {
  }

  lemma RoundConstants6()
    ensures CubeRoot(227, 6, KTable(48)) && CubeRoot(229, 6, KTable(49)) && CubeRoot(233, 6, KTable(50))
      && CubeRoot(239, 6, KTable(51))
    ensures CubeRoot(241, 6, KTable(52)) && CubeRoot(251, 6, KTable(53)) && CubeRoot(257, 6, KTable(54))
      && CubeRoot(263, 6, KTable(55))
  {
    hide CubeRoot;
    Roots6();
  }

  lemma Roots7()
    ensures CubeRoot(269, 6, 0x748f82ee) && CubeRoot(271, 6, 0x78a5636f) && CubeRoot(277, 6, 0x84c87814)
      && CubeRoot(281, 6, 0x8cc70208)
    ensures CubeRoot(283, 6, 0x90befffa) && CubeRoot(293, 6, 0xa4506ceb) && CubeRoot(307, 6, 0xbef9a3f7)
      && CubeRoot(311, 6, 0xc67178f2)
  {
  }

  lemma RoundConstants7()
    ensures CubeRoot(269, 6, KTable(56)) && CubeRoot(271, 6, KTable(57)) && CubeRoot(277, 6, KTable(58))
      && CubeRoot(281, 6, KTable(59))
    ensures CubeRoot(283, 6, KTable(60)) && CubeRoot(293, 6, KTable(61)) && CubeRoot(307, 6, KTable(62))
      && CubeRoot(311, 6, KTable(63))
  {
    hide CubeRoot;
    Roots7();
  }

  /** n is the whole part of the square root of p, and k the first 32 bits of its fractional part. */
  predicate SquareRoot(p: int, n: int, k: int) {
    && 0 <= k < 0x1_0000_0000
    && var r := n * 0x1_0000_0000 + k;
    r * r <= p * 0x1_00000000_00000000 < (r + 1) * (r + 1)
  }

  lemma SquareRoots()
    ensures SquareRoot(2, 1, 0x6a09e667) && SquareRoot(3, 1, 0xbb67ae85) && SquareRoot(5, 2, 0x3c6ef372)
      && SquareRoot(7, 2, 0xa54ff53a)
    ensures SquareRoot(11, 3, 0x510e527f) && SquareRoot(13, 3, 0x9b05688c) && SquareRoot(17, 4, 0x1f83d9ab)
      && SquareRoot(19, 4, 0x5be0cd19)
  {
  }

  lemma InitialConstants256()
    ensures SquareRoot(2, 1, Initial256Table(0)) && SquareRoot(3, 1, Initial256Table(1))
    ensures SquareRoot(5, 2, Initial256Table(2)) && SquareRoot(7, 2, Initial256Table(3))
    ensures SquareRoot(11, 3, Initial256Table(4)) && SquareRoot(13, 3, Initial256Table(5))
    ensures SquareRoot(17, 4, Initial256Table(6)) && SquareRoot(19, 4, Initial256Table(7))
  {
    hide SquareRoot;
    SquareRoots();
  }

  /** n holds the whole part of the square root of p and the first 32 bits of its fractional part, and k the
      32 bits behind them. */
  predicate SecondHalf(p: int, n: int, k: int) {
    && 0 <= k < 0x1_0000_0000
    && var r := n * 0x1_0000_0000 + k;
    r * r <= p * 0x1_00000000_00000000_00000000_00000000 < (r + 1) * (r + 1)
  }

  lemma SecondHalves()
    ensures SecondHalf(23, 0x4cbbb9d5d, 0xc1059ed8) && SecondHalf(29, 0x5629a292a, 0x367cd507)
    ensures SecondHalf(31, 0x59159015a, 0x3070dd17) && SecondHalf(37, 0x6152fecd8, 0xf70e5939)
    ensures SecondHalf(41, 0x667332667, 0xffc00b31) && SecondHalf(43, 0x68eb44a87, 0x68581511)
    ensures SecondHalf(47, 0x6db0c2e0d, 0x64f98fa7) && SecondHalf(53, 0x747b5481d, 0xbefa4fa4)
  {
  }

  lemma InitialConstants224()
    ensures SecondHalf(23, 0x4cbbb9d5d, Initial224Table(0)) && SecondHalf(29, 0x5629a292a, Initial224Table(1))
    ensures SecondHalf(31, 0x59159015a, Initial224Table(2)) && SecondHalf(37, 0x6152fecd8, Initial224Table(3))
    ensures SecondHalf(41, 0x667332667, Initial224Table(4)) && SecondHalf(43, 0x68eb44a87, Initial224Table(5))
    ensures SecondHalf(47, 0x6db0c2e0d, Initial224Table(6)) && SecondHalf(53, 0x747b5481d, Initial224Table(7))
  {
    hide SecondHalf;
    SecondHalves();
  }

  lemma ConstantWords(t: nat, i: nat)
    requires t < 64 && i < 8
    ensures Num(K(t)) == KTable(t)
    ensures Num(Initial256()[i]) == Initial256Table(i) && Num(Initial224()[i]) == Initial224Table(i)
  {
    hide OfNum, Num, KTable, Initial256Table, Initial224Table, Positional.Pow;
    BelowTwoTo32(t, i);
    TwoTo64();
    BitsOfNum(KTable(t), 32);
    BitsOfNum(Initial256Table(i), 32);
    BitsOfNum(Initial224Table(i), 32);
  }

  lemma BelowTwoTo32(t: nat, i: nat)
    ensures KTable(t) < 0x1_0000_0000 && Initial256Table(i) < 0x1_0000_0000 && Initial224Table(i) < 0x1_0000_0000
  {
  }

  // ----- the functions on words: bit k counts from the most significant one -----

  lemma SumIs(a: word32, b: word32)
    ensures Num(Add32(a, b)) == (Num(a) + Num(b)) % 0x1_0000_0000
  {
    hide OfNum, Num, Positional.Pow;
    TwoTo64();
    BitsOfNum(Num(a) + Num(b), 32);
  }

  lemma FunctionsAre(x: word32, y: word32, z: word32, k: nat)
    requires k < 32
    ensures Ch(x, y, z)[k] == if x[k] then y[k] else z[k]
    ensures Maj(x, y, z)[k] == if x[k] == y[k] then x[k] else z[k]
  {
  }

  lemma RotatedBit(x: word32, n: nat, k: nat)
    requires n < 32 && k < 32
    ensures RotateRight(x, n)[k] == x[(k + 32 - n) % 32] && ShiftRight(x, n)[k] == (n <= k && x[k - n])
  {
  }

  lemma BigSigmasAre(x: word32, k: nat)
    requires k < 32
    ensures BigSigma0(x)[k] == (x[(k + 32 - 2) % 32] != (x[(k + 32 - 13) % 32] != x[(k + 32 - 22) % 32]))
    ensures BigSigma1(x)[k] == (x[(k + 32 - 6) % 32] != (x[(k + 32 - 11) % 32] != x[(k + 32 - 25) % 32]))
  {
    hide RotateRight;
    RotatedBit(x, 2, k);
    RotatedBit(x, 13, k);
    RotatedBit(x, 22, k);
    RotatedBit(x, 6, k);
    RotatedBit(x, 11, k);
    RotatedBit(x, 25, k);
  }

  lemma SmallSigmasAre(x: word32, k: nat)
    requires k < 32
    ensures SmallSigma0(x)[k] == (x[(k + 32 - 7) % 32] != (x[(k + 32 - 18) % 32] != (3 <= k && x[k - 3])))
    ensures SmallSigma1(x)[k] == (x[(k + 32 - 17) % 32] != (x[(k + 32 - 19) % 32] != (10 <= k && x[k - 10])))
  {
    hide RotateRight, ShiftRight;
    RotatedBit(x, 7, k);
    RotatedBit(x, 18, k);
    RotatedBit(x, 3, k);
    RotatedBit(x, 17, k);
    RotatedBit(x, 19, k);
    RotatedBit(x, 10, k);
  }

  // ----- section 6.2.2 -----

  /** Step 1: the bits of the block, and the recurrence behind them. */
  lemma ScheduleMeans(block: Block, t: nat, i: nat, j: nat)
    requires i < 4 && j < 8
    ensures t < 16 ==> W(block, t)[8 * i + j] == block[4 * t + i][j]
    ensures 16 <= t ==> W(block, t) == Add32(Add32(Add32(SmallSigma1(W(block, t - 2)), W(block, t - 7)),
      SmallSigma0(W(block, t - 15))), W(block, t - 16))
  {
    hide Add32, SmallSigma0, SmallSigma1, ToBits, W;
    ScheduleIs(block, t);
    if t < 16 { ToBitsAt(block[4 * t..4 * t + 4], i, j); }
  }

  /** Steps 2 and 3: the working variables before round t, and what the round makes of them. */
  lemma RoundMeans(s: State, block: Block, t: nat, v: Vars, n: Vars, t1: word32, t2: word32)
    requires v == AfterRounds(s, block, t) && n == AfterRounds(s, block, t + 1)
    requires t1 == Add32(Add32(Add32(Add32(v.h, BigSigma1(v.e)), Ch(v.e, v.f, v.g)), K(t)), W(block, t))
    requires t2 == Add32(BigSigma0(v.a), Maj(v.a, v.b, v.c))
    ensures t == 0 ==> v.a == s[0] && v.b == s[1] && v.c == s[2] && v.d == s[3]
    ensures t == 0 ==> v.e == s[4] && v.f == s[5] && v.g == s[6] && v.h == s[7]
    ensures n.h == v.g && n.g == v.f && n.f == v.e && n.e == Add32(v.d, t1)
    ensures n.d == v.c && n.c == v.b && n.b == v.a && n.a == Add32(t1, t2)
  {
    hide Add32, BigSigma0, BigSigma1, Ch, Maj, K, W, AfterRounds;
    RoundIs(s, block, t);
  }

  /** Step 4: the variables after 64 rounds are added to the state. */
  lemma CompressMeans(s: State, block: Block, v: Vars, n: State)
    requires v == AfterRounds(s, block, 64) && n == Compress(s, block)
    ensures n[0] == Add32(s[0], v.a) && n[1] == Add32(s[1], v.b) && n[2] == Add32(s[2], v.c)
    ensures n[3] == Add32(s[3], v.d) && n[4] == Add32(s[4], v.e) && n[5] == Add32(s[5], v.f)
    ensures n[6] == Add32(s[6], v.g) && n[7] == Add32(s[7], v.h)
  {
    hide Add32, AfterRounds;
  }

  // ----- sections 5.1.1 and 6.2 -----

  /** The padded message: the message, the bit 1, zeros and the length in bits as 64 bits, in the least number
      of whole blocks. */
  lemma PaddingMeans(m: seq<byte>, r: seq<byte>, k: nat)
    requires r == Padding(m)
    ensures |r| == 64 * PaddedBlocks(|m|) && |m| + 9 <= |r| < |m| + 9 + 64
    ensures r[..|m|] == m && r[|m|] == [true, false, false, false, false, false, false, false]
    ensures |m| < k < |r| - 8 ==> r[k] == Zeros(8)
    ensures |m| < 0x2000_0000_0000_0000 ==> Num(ToBits(r[|r| - 8..])) == 8 * |m|
  {
    hide OfNum, PutU64, Num, ToBits, Gap;
    GapIsSmallest(|m|, Gap(|m|));
    GapBelow(|m|);
    assert r[|r| - 8..] == PutU64(8 * |m|);
    if |m| < 0x2000_0000_0000_0000 { PutU64Is(8 * |m|); }
    TopBit();
  }

  lemma GapBelow(len: nat)
    ensures Gap(len) < 64
  {
  }

  lemma TopBit()
    ensures OfNum(0x80, 8) == [true, false, false, false, false, false, false, false]
  {
  }

  /** Block after block from the initial state. */
  lemma FoldMeans(init: State, r: seq<byte>, n: nat)
    requires 64 * n + 64 <= |r|
    ensures Fold(init, r, 0) == init
    ensures Fold(init, r, n + 1) == Compress(Fold(init, r, n), r[64 * n..64 * n + 64])
  {
    hide Compress;
    assert 64 * (n + 1) - 64 == 64 * n;
  }

  /** The digest holds the bytes of the last state, word by word. */
  lemma DigestMeans(init: State, m: seq<byte>, s: State, i: nat, j: nat, k: nat)
    requires s == Fold(init, Padding(m), PaddedBlocks(|m|)) && i < 8 && j < 4 && k < 8
    ensures Digest(init, m)[4 * i + j][k] == s[i][8 * j + k]
  {
    hide Fold, Padding, PaddedBlocks;
    SerializeIs(s, i, j, k);
  }

  lemma {:induction false} SerializeIs(s: seq<word32>, i: nat, j: nat, k: nat)
    requires i < |s| && j < 4 && k < 8
    ensures Serialize(s)[4 * i + j][k] == s[i][8 * j + k]
  {
    hide ToBytes;
    var n := |s| - 1;
    if i < n { SerializeIs(s[..n], i, j, k); }
    else {
      BitsOfBytes(s[n]);
      ToBitsAt(ToBytes(s[n]), j, k);
    }
  }
}
