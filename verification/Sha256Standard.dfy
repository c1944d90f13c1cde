/** What fixes the parts of SHA-256 that the standard and the code share: the constants as root
    fractions of primes (sections 4.2.2 and 5.3.3 of FIPS 180-4), the bit functions, one round and one
    schedule step in plain operators, and the byte order as a round trip. */
module Sha256Standard {
  import opened Sha256

  /** `w` is the first 32 bits of the fraction of the cube root of `p`, whose whole part is `q`. */
  predicate CubeFraction(p: nat, q: nat, w: Word) {
    var n := q * 0x1_0000_0000 + w as nat;
    n * n * n <= p * 0x1_0000_0000_0000_0000_0000_0000 < (n + 1) * (n + 1) * (n + 1)
  }

  /** The same of the square root. */
  predicate SquareFraction(p: nat, q: nat, w: Word) {
    var n := q * 0x1_0000_0000 + w as nat;
    n * n <= p * 0x1_0000_0000_0000_0000 < (n + 1) * (n + 1)
  }

  lemma Fractions0()
    ensures CubeFraction(2, 1, 0x428a2f98) && CubeFraction(3, 1, 0x71374491)
  {
  }

  lemma Fractions2()
    ensures CubeFraction(5, 1, 0xb5c0fbcf) && CubeFraction(7, 1, 0xe9b5dba5)
  {
  }

  lemma Fractions4()
    ensures CubeFraction(11, 2, 0x3956c25b) && CubeFraction(13, 2, 0x59f111f1)
  {
  }

  lemma Fractions6()
    ensures CubeFraction(17, 2, 0x923f82a4) && CubeFraction(19, 2, 0xab1c5ed5)
  {
  }

  lemma CubeRoots0()
    ensures CubeFraction(2, 1, K0[0]) && CubeFraction(3, 1, K0[1]) && CubeFraction(5, 1, K0[2]) && CubeFraction(7, 1, K0[3]) &&
      CubeFraction(11, 2, K0[4]) && CubeFraction(13, 2, K0[5]) && CubeFraction(17, 2, K0[6]) && CubeFraction(19, 2, K0[7])
  {
    hide CubeFraction;
    Fractions0();
    Fractions2();
    Fractions4();
    Fractions6();
  }

  lemma Fractions8()
    ensures CubeFraction(23, 2, 0xd807aa98) && CubeFraction(29, 3, 0x12835b01)
  {
  }

  lemma Fractions10()
    ensures CubeFraction(31, 3, 0x243185be) && CubeFraction(37, 3, 0x550c7dc3)
  {
  }

  lemma Fractions12()
    ensures CubeFraction(41, 3, 0x72be5d74) && CubeFraction(43, 3, 0x80deb1fe)
  {
  }

  lemma Fractions14()
    ensures CubeFraction(47, 3, 0x9bdc06a7) && CubeFraction(53, 3, 0xc19bf174)
  {
  }

  lemma CubeRoots1()
    ensures CubeFraction(23, 2, K1[0]) && CubeFraction(29, 3, K1[1]) && CubeFraction(31, 3, K1[2]) && CubeFraction(37, 3, K1[3]) &&
      CubeFraction(41, 3, K1[4]) && CubeFraction(43, 3, K1[5]) && CubeFraction(47, 3, K1[6]) && CubeFraction(53, 3, K1[7])
  {
    hide CubeFraction;
    Fractions8();
    Fractions10();
    Fractions12();
    Fractions14();
  }

  lemma Fractions16()
    ensures CubeFraction(59, 3, 0xe49b69c1) && CubeFraction(61, 3, 0xefbe4786)
  {
  }

  lemma Fractions18()
    ensures CubeFraction(67, 4, 0x0fc19dc6) && CubeFraction(71, 4, 0x240ca1cc)
  {
  }

  lemma Fractions20()
    ensures CubeFraction(73, 4, 0x2de92c6f) && CubeFraction(79, 4, 0x4a7484aa)
  {
  }

  lemma Fractions22()
    ensures CubeFraction(83, 4, 0x5cb0a9dc) && CubeFraction(89, 4, 0x76f988da)
  {
  }

  lemma CubeRoots2()
    ensures CubeFraction(59, 3, K2[0]) && CubeFraction(61, 3, K2[1]) && CubeFraction(67, 4, K2[2]) && CubeFraction(71, 4, K2[3]) &&
      CubeFraction(73, 4, K2[4]) && CubeFraction(79, 4, K2[5]) && CubeFraction(83, 4, K2[6]) && CubeFraction(89, 4, K2[7])
  {
    hide CubeFraction;
    Fractions16();
    Fractions18();
    Fractions20();
    Fractions22();
  }

  lemma Fractions24()
    ensures CubeFraction(97, 4, 0x983e5152) && CubeFraction(101, 4, 0xa831c66d)
  {
  }

  lemma Fractions26()
    ensures CubeFraction(103, 4, 0xb00327c8) && CubeFraction(107, 4, 0xbf597fc7)
  {
  }

  lemma Fractions28()
    ensures CubeFraction(109, 4, 0xc6e00bf3) && CubeFraction(113, 4, 0xd5a79147)
  {
  }

  lemma Fractions30()
    ensures CubeFraction(127, 5, 0x06ca6351) && CubeFraction(131, 5, 0x14292967)
  {
  }

  lemma CubeRoots3()
    ensures CubeFraction(97, 4, K3[0]) && CubeFraction(101, 4, K3[1]) && CubeFraction(103, 4, K3[2]) && CubeFraction(107, 4, K3[3]) &&
      CubeFraction(109, 4, K3[4]) && CubeFraction(113, 4, K3[5]) && CubeFraction(127, 5, K3[6]) && CubeFraction(131, 5, K3[7])
  {
    hide CubeFraction;
    Fractions24();
    Fractions26();
    Fractions28();
    Fractions30();
  }

  lemma Fractions32()
    ensures CubeFraction(137, 5, 0x27b70a85) && CubeFraction(139, 5, 0x2e1b2138)
  {
  }

  lemma Fractions34()
    ensures CubeFraction(149, 5, 0x4d2c6dfc) && CubeFraction(151, 5, 0x53380d13)
  {
  }

  lemma Fractions36()
    ensures CubeFraction(157, 5, 0x650a7354) && CubeFraction(163, 5, 0x766a0abb)
  {
  }

  lemma Fractions38()
    ensures CubeFraction(167, 5, 0x81c2c92e) && CubeFraction(173, 5, 0x92722c85)
  {
  }

  lemma CubeRoots4()
    ensures CubeFraction(137, 5, K4[0]) && CubeFraction(139, 5, K4[1]) && CubeFraction(149, 5, K4[2]) && CubeFraction(151, 5, K4[3]) &&
      CubeFraction(157, 5, K4[4]) && CubeFraction(163, 5, K4[5]) && CubeFraction(167, 5, K4[6]) && CubeFraction(173, 5, K4[7])
  {
    hide CubeFraction;
    Fractions32();
    Fractions34();
    Fractions36();
    Fractions38();
  }

  lemma Fractions40()
    ensures CubeFraction(179, 5, 0xa2bfe8a1) && CubeFraction(181, 5, 0xa81a664b)
  {
  }

  lemma Fractions42()
    ensures CubeFraction(191, 5, 0xc24b8b70) && CubeFraction(193, 5, 0xc76c51a3)
  {
  }

  lemma Fractions44()
    ensures CubeFraction(197, 5, 0xd192e819) && CubeFraction(199, 5, 0xd6990624)
  {
  }

  lemma Fractions46()
    ensures CubeFraction(211, 5, 0xf40e3585) && CubeFraction(223, 6, 0x106aa070)
  {
  }

  lemma CubeRoots5()
    ensures CubeFraction(179, 5, K5[0]) && CubeFraction(181, 5, K5[1]) && CubeFraction(191, 5, K5[2]) && CubeFraction(193, 5, K5[3]) &&
      CubeFraction(197, 5, K5[4]) && CubeFraction(199, 5, K5[5]) && CubeFraction(211, 5, K5[6]) && CubeFraction(223, 6, K5[7])
  {
    hide CubeFraction;
    Fractions40();
    Fractions42();
    Fractions44();
    Fractions46();
  }

  lemma Fractions48()
    ensures CubeFraction(227, 6, 0x19a4c116) && CubeFraction(229, 6, 0x1e376c08)
  {
  }

  lemma Fractions50()
    ensures CubeFraction(233, 6, 0x2748774c) && CubeFraction(239, 6, 0x34b0bcb5)
  {
  }

  lemma Fractions52()
    ensures CubeFraction(241, 6, 0x391c0cb3) && CubeFraction(251, 6, 0x4ed8aa4a)
  {
  }

  lemma Fractions54()
    ensures CubeFraction(257, 6, 0x5b9cca4f) && CubeFraction(263, 6, 0x682e6ff3)
  {
  }

  lemma CubeRoots6()
    ensures CubeFraction(227, 6, K6[0]) && CubeFraction(229, 6, K6[1]) && CubeFraction(233, 6, K6[2]) && CubeFraction(239, 6, K6[3]) &&
      CubeFraction(241, 6, K6[4]) && CubeFraction(251, 6, K6[5]) && CubeFraction(257, 6, K6[6]) && CubeFraction(263, 6, K6[7])
  {
    hide CubeFraction;
    Fractions48();
    Fractions50();
    Fractions52();
    Fractions54();
  }

  lemma Fractions56()
    ensures CubeFraction(269, 6, 0x748f82ee) && CubeFraction(271, 6, 0x78a5636f)
  {
  }

  lemma Fractions58()
    ensures CubeFraction(277, 6, 0x84c87814) && CubeFraction(281, 6, 0x8cc70208)
  {
  }

  lemma Fractions60()
    ensures CubeFraction(283, 6, 0x90befffa) && CubeFraction(293, 6, 0xa4506ceb)
  {
  }

  lemma Fractions62()
    ensures CubeFraction(307, 6, 0xbef9a3f7) && CubeFraction(311, 6, 0xc67178f2)
  {
  }

  lemma CubeRoots7()
    ensures CubeFraction(269, 6, K7[0]) && CubeFraction(271, 6, K7[1]) && CubeFraction(277, 6, K7[2]) && CubeFraction(281, 6, K7[3]) &&
      CubeFraction(283, 6, K7[4]) && CubeFraction(293, 6, K7[5]) && CubeFraction(307, 6, K7[6]) && CubeFraction(311, 6, K7[7])
  {
    hide CubeFraction;
    Fractions56();
    Fractions58();
    Fractions60();
    Fractions62();
  }

  /** The constants are these rows, in order. */
  lemma RowsOfK(r: nat)
    requires r < 8
    ensures |K| == 64 && K[r] == K0[r] && K[8 + r] == K1[r] && K[16 + r] == K2[r] && K[24 + r] == K3[r]
    ensures K[32 + r] == K4[r] && K[40 + r] == K5[r] && K[48 + r] == K6[r] && K[56 + r] == K7[r]
  {
    RowLengths();
    hide K0, K1, K2, K3, K4, K5, K6, K7;
    assert |KLow| == 32 && |KHigh| == 32;
    assert KLow[r] == K0[r] && KLow[8 + r] == K1[r] && KLow[16 + r] == K2[r] && KLow[24 + r] == K3[r];
    assert KHigh[r] == K4[r] && KHigh[8 + r] == K5[r] && KHigh[16 + r] == K6[r] && KHigh[24 + r] == K7[r];
    hide KLow, KHigh;
  }

  lemma RowLengths()
    ensures |K0| == |K1| == |K2| == |K3| == |K4| == |K5| == |K6| == |K7| == 8
  {
  }

  /** The initial hash value: square roots of the first eight primes. */
  lemma SquareRoots()
    ensures SquareFraction(2, 1, INITIAL.a) && SquareFraction(3, 1, INITIAL.b) &&
      SquareFraction(5, 2, INITIAL.c) && SquareFraction(7, 2, INITIAL.d) &&
      SquareFraction(11, 3, INITIAL.e) && SquareFraction(13, 3, INITIAL.f) &&
      SquareFraction(17, 4, INITIAL.g) && SquareFraction(19, 4, INITIAL.h)
  {
    assert SquareFraction(2, 1, 0x6a09e667);
    assert SquareFraction(3, 1, 0xbb67ae85);
    assert SquareFraction(5, 2, 0x3c6ef372);
    assert SquareFraction(7, 2, 0xa54ff53a);
    assert SquareFraction(11, 3, 0x510e527f);
    assert SquareFraction(13, 3, 0x9b05688c);
    assert SquareFraction(17, 4, 0x1f83d9ab);
    assert SquareFraction(19, 4, 0x5be0cd19);
  }

  /** Ch takes each bit from `y` where `x` is set ... */
  lemma ChWhereSet(x: Word, y: Word, z: Word)
    ensures Ch(x, y, z) & x == y & x
  {
  }

  /** ... and from `z` elsewhere. */
  lemma ChElsewhere(x: Word, y: Word, z: Word)
    ensures Ch(x, y, z) & !x == z & !x
  {
  }

  /** Maj is the majority of each bit. */
  lemma MajIsMajority(x: Word, y: Word, z: Word)
    ensures Maj(x, y, z) == (x & y) | (x & z) | (y & z)
  {
  }

  /** The rotation and shift amounts, seen on single bits. */
  lemma SigmaAmounts()
    ensures BigSigma0(1) == 0x40080400 && BigSigma1(1) == 0x04200080
    ensures SmallSigma0(1) == 0x02004000 && SmallSigma0(8) == 0x10020001
    ensures SmallSigma1(1) == 0x0000a000 && SmallSigma1(1024) == 0x02800001
  {
  }

  lemma PlusIs(x: Word, y: Word)
    ensures Plus(x, y) == x + y
  {
  }

  /** One round: step 3 of section 6.2.2. */
  lemma RoundIs(r: Hash, k: Word, w: Word)
    ensures var t1 := Plus(Plus(Plus(Plus(r.h, BigSigma1(r.e)), Ch(r.e, r.f, r.g)), k), w);
      var t2 := Plus(BigSigma0(r.a), Maj(r.a, r.b, r.c));
      var r' := Round(r, k, w);
      r'.h == r.g && r'.g == r.f && r'.f == r.e && r'.e == Plus(r.d, t1) &&
      r'.d == r.c && r'.c == r.b && r'.b == r.a && r'.a == Plus(t1, t2)
  {
    hide Plus, BigSigma0, BigSigma1, Ch, Maj;
  }

  /** One schedule step: step 1 of section 6.2.2. */
  lemma ScheduleIs(m: Block, t: nat)
    requires 16 <= t < 64
    ensures W(m, t) ==
      Plus(Plus(Plus(SmallSigma1(W(m, t - 2)), W(m, t - 7)), SmallSigma0(W(m, t - 15))), W(m, t - 16))
  {
    hide Plus, W, SmallSigma0, SmallSigma1;
    LaterWords(m, t);
  }

  /** The rounds of a block use the constants and its words in order, and are added to the start. */
  lemma CompressIs(h: Hash, m: Block, n: nat)
    requires n < 64
    ensures Rounds(h, m, 0) == h && Rounds(h, m, n + 1) == Round(Rounds(h, m, n), K[n], W(m, n))
    ensures var r := Rounds(h, m, 64);
      Compress(h, m) == Hash(Plus(r.a, h.a), Plus(r.b, h.b), Plus(r.c, h.c), Plus(r.d, h.d),
                             Plus(r.e, h.e), Plus(r.f, h.f), Plus(r.g, h.g), Plus(r.h, h.h))
  {
    hide Round, W, K, Plus;
  }

  /** Words are read from and written to bytes most significant first: each undoes the other. */
  lemma BytesRoundTrip(a: Byte, b: Byte, c: Byte, d: Byte, w: Word)
    ensures WordBytes(BigEndian(a, b, c, d)) == [a, b, c, d]
    ensures BigEndian(WordBytes(w)[0], WordBytes(w)[1], WordBytes(w)[2], WordBytes(w)[3]) == w
    ensures BigEndian(1, 2, 3, 4) == 0x01020304
  {
  }

  /** The padded message: the message, a one bit, zeros, and the length in bits, in whole blocks. */
  lemma PadIs(message: seq<Byte>)
    requires |message| < LIMIT
    ensures var p := Pad(message);
      |p| % 64 == 0 && |message| + 9 <= |p| < |message| + 73 && p[..|message|] == message && p[|message|] == 0x80 &&
      (forall i :: |message| < i < |p| - 8 ==> p[i] == 0) &&
      forall i :: 0 <= i < 8 ==> p[|p| - 1 - i] == (ShiftedBytes(8 * |message|, i) % 256) as Byte
  {
    var z, tail := ZeroBytes(|message|), LengthTail(8 * |message|, 8);
    var p := Pad(message);
    assert p == message + [0x80] + Zeros(z) + tail;
    forall i | |message| < i < |p| - 8 ensures p[i] == 0 {
      ZerosAt(z, i - |message| - 1);
      assert p[i] == Zeros(z)[i - |message| - 1];
    }
    forall i | 0 <= i < 8 ensures p[|p| - 1 - i] == (ShiftedBytes(8 * |message|, i) % 256) as Byte {
      LengthByteAt(8 * |message|, 8, 7 - i);
      assert p[|p| - 1 - i] == tail[7 - i];
    }
  }

  lemma {:induction false} ZerosAt(k: nat, i: nat)
    requires i < k
    ensures Zeros(k)[i] == 0
  {
    if i < k - 1 {
      ZerosAt(k - 1, i);
    }
  }
}
