/**
 * The standard's worked example, the digest of "abc", computed word by word and round by round by the
 * standard's part of `Sha1`.
 */
module Sha1Example {
  import opened Sha1

  // ---------------------------------------------------------------------------------------------
  // The message schedule, sixteen words at a time

  predicate Words0(b: block) {
    && W(b, 0) == 0x61626380 && W(b, 1) == 0 && W(b, 2) == 0 && W(b, 3) == 0
    && W(b, 4) == 0 && W(b, 5) == 0 && W(b, 6) == 0 && W(b, 7) == 0
    && W(b, 8) == 0 && W(b, 9) == 0 && W(b, 10) == 0 && W(b, 11) == 0
    && W(b, 12) == 0 && W(b, 13) == 0 && W(b, 14) == 0 && W(b, 15) == 0x00000018
  }

  predicate Words16(b: block) {
    && W(b, 16) == 0xc2c4c700 && W(b, 17) == 0 && W(b, 18) == 0x00000030 && W(b, 19) == 0x85898e01
    && W(b, 20) == 0 && W(b, 21) == 0x00000060 && W(b, 22) == 0x0b131c03 && W(b, 23) == 0x00000030
    && W(b, 24) == 0x85898ec1 && W(b, 25) == 0x16263806 && W(b, 26) == 0 && W(b, 27) == 0x00000180
    && W(b, 28) == 0x2c4c700c && W(b, 29) == 0x000000f0 && W(b, 30) == 0x93afb507 && W(b, 31) == 0x5898e048
  }

  predicate Words32(b: block) {
    && W(b, 32) == 0x8e9a9202 && W(b, 33) == 0x00000600 && W(b, 34) == 0xb131c0f0 && W(b, 35) == 0x16263bc6
    && W(b, 36) == 0x4ebed41e && W(b, 37) == 0x626380a1 && W(b, 38) == 0x16263806 && W(b, 39) == 0x000018c0
    && W(b, 40) == 0xd2e138c4 && W(b, 41) == 0x00000f00 && W(b, 42) == 0x3afb5079 && W(b, 43) == 0x898e04e5
    && W(b, 44) == 0xe2ba3c2b && W(b, 45) == 0x000060c0 && W(b, 46) == 0x053a37cd && W(b, 47) == 0x74458547
  }

  predicate Words48(b: block) {
    && W(b, 48) == 0xda9415ed && W(b, 49) == 0x26380a16 && W(b, 50) == 0x626383a1 && W(b, 51) == 0x4ebf54de
    && W(b, 52) == 0x3835b44b && W(b, 53) == 0x0000f600 && W(b, 54) == 0x1e84c7a3 && W(b, 55) == 0x98e04d98
    && W(b, 56) == 0x651d16a0 && W(b, 57) == 0x62658ca1 && W(b, 58) == 0x458544d6 && W(b, 59) == 0x44584cb7
    && W(b, 60) == 0x7ba06619 && W(b, 61) == 0x6380aea2 && W(b, 62) == 0x0ae55269 && W(b, 63) == 0x627b49a1
  }

  predicate Words64(b: block) {
    && W(b, 64) == 0x7cd45c9d && W(b, 65) == 0x000f0000 && W(b, 66) == 0xfb50753a && W(b, 67) == 0xec6765e8
    && W(b, 68) == 0xba3c2be2 && W(b, 69) == 0x0060c000 && W(b, 70) == 0x3a37cd05 && W(b, 71) == 0x458546f4
    && W(b, 72) == 0xb8599dd6 && W(b, 73) == 0x380a1a26 && W(b, 74) == 0x01e02203 && W(b, 75) == 0xe7cc3456
    && W(b, 76) == 0xe6e60b69 && W(b, 77) == 0x00f60a00 && W(b, 78) == 0x5795ef4f && W(b, 79) == 0x822e0879
  }

  lemma Schedule16(b: block)
    requires Words0(b)
    ensures Words16(b)
  {
  }

  lemma Schedule32(b: block)
    requires Words16(b)
    ensures Words32(b)
  {
  }

  lemma Schedule48(b: block)
    requires Words32(b)
    ensures Words48(b)
  {
  }

  lemma Schedule64(b: block)
    requires Words48(b)
    ensures Words64(b)
  {
  }

  // ---------------------------------------------------------------------------------------------
  // The working variables, every sixteen rounds

  function Four(h: Hash, t: nat, v: word, w: word, x: word, y: word): Hash {
    Round(Round(Round(Round(h, t, v), t + 1, w), t + 2, x), t + 3, y)
  }

  lemma Turns0()
    ensures var h4 := Four(Hash(0x67452301, 0xefcdab89, 0x98badcfe, 0x10325476, 0xc3d2e1f0),
                          0, 0x61626380, 0, 0, 0);
            var h8 := Four(h4, 4, 0, 0, 0, 0);
            var h12 := Four(h8, 8, 0, 0, 0, 0);
            Four(h12, 12, 0, 0, 0, 0x00000018)
            == Hash(0x20bdd62f, 0x196bee77, 0x644a3da5, 0x1181ed99, 0x18c623f9)
  {
  }

  lemma Turns16()
    ensures var h4 := Four(Hash(0x20bdd62f, 0x196bee77, 0x644a3da5, 0x1181ed99, 0x18c623f9),
                          16, 0xc2c4c700, 0, 0x00000030, 0x85898e01);
            var h8 := Four(h4, 20, 0, 0x00000060, 0x0b131c03, 0x00000030);
            var h12 := Four(h8, 24, 0x85898ec1, 0x16263806, 0, 0x00000180);
            Four(h12, 28, 0x2c4c700c, 0x000000f0, 0x93afb507, 0x5898e048)
            == Hash(0x3b845d33, 0x1267b407, 0x717eebd7, 0xa0dc2d4b, 0xd2aa1365)
  {
  }

  lemma Turns32()
    ensures var h4 := Four(Hash(0x3b845d33, 0x1267b407, 0x717eebd7, 0xa0dc2d4b, 0xd2aa1365),
                          32, 0x8e9a9202, 0x00000600, 0xb131c0f0, 0x16263bc6);
            var h8 := Four(h4, 36, 0x4ebed41e, 0x626380a1, 0x16263806, 0x000018c0);
            var h12 := Four(h8, 40, 0xd2e138c4, 0x00000f00, 0x3afb5079, 0x898e04e5);
            Four(h12, 44, 0xe2ba3c2b, 0x000060c0, 0x053a37cd, 0x74458547)
            == Hash(0xbead02ca, 0xa01b846c, 0x8714787c, 0x503ca382, 0xfb86c6ab)
  {
  }

  lemma Turns48()
    ensures var h4 := Four(Hash(0xbead02ca, 0xa01b846c, 0x8714787c, 0x503ca382, 0xfb86c6ab),
                          48, 0xda9415ed, 0x26380a16, 0x626383a1, 0x4ebf54de);
            var h8 := Four(h4, 52, 0x3835b44b, 0x0000f600, 0x1e84c7a3, 0x98e04d98);
            var h12 := Four(h8, 56, 0x651d16a0, 0x62658ca1, 0x458544d6, 0x44584cb7);
            Four(h12, 60, 0x7ba06619, 0x6380aea2, 0x0ae55269, 0x627b49a1)
            == Hash(0x6b61c9e1, 0xb66c020b, 0x9523272c, 0xf5d5b051, 0x8fd4b796)
  {
  }

  lemma Turns64()
    ensures var h4 := Four(Hash(0x6b61c9e1, 0xb66c020b, 0x9523272c, 0xf5d5b051, 0x8fd4b796),
                          64, 0x7cd45c9d, 0x000f0000, 0xfb50753a, 0xec6765e8);
            var h8 := Four(h4, 68, 0xba3c2be2, 0x0060c000, 0x3a37cd05, 0x458546f4);
            var h12 := Four(h8, 72, 0xb8599dd6, 0x380a1a26, 0x01e02203, 0xe7cc3456);
            Four(h12, 76, 0xe6e60b69, 0x00f60a00, 0x5795ef4f, 0x822e0879)
            == Hash(0x42541b35, 0x5738d5e1, 0x21834873, 0x681e6df6, 0xd8fdf6ad)
  {
  }

  lemma FourRounds(b: block, t: nat)
    ensures Rounds(H0, b, t + 4) == Four(Rounds(H0, b, t), t, W(b, t), W(b, t + 1), W(b, t + 2), W(b, t + 3))
  {
    hide Round, W;
    assert Rounds(H0, b, t + 2) == Round(Round(Rounds(H0, b, t), t, W(b, t)), t + 1, W(b, t + 1));
  }

  lemma SixteenRounds(b: block, t: nat)
    ensures var h4 := Four(Rounds(H0, b, t), t, W(b, t), W(b, t + 1), W(b, t + 2), W(b, t + 3));
            var h8 := Four(h4, t + 4, W(b, t + 4), W(b, t + 5), W(b, t + 6), W(b, t + 7));
            var h12 := Four(h8, t + 8, W(b, t + 8), W(b, t + 9), W(b, t + 10), W(b, t + 11));
            Rounds(H0, b, t + 16) == Four(h12, t + 12, W(b, t + 12), W(b, t + 13), W(b, t + 14), W(b, t + 15))
  {
    hide Four, Rounds, W;
    FourRounds(b, t);
    FourRounds(b, t + 4);
    FourRounds(b, t + 8);
    FourRounds(b, t + 12);
  }

  lemma Rounds0(b: block)
    requires Words0(b) && Rounds(H0, b, 0) == Hash(0x67452301, 0xefcdab89, 0x98badcfe, 0x10325476, 0xc3d2e1f0)
    ensures Rounds(H0, b, 16) == Hash(0x20bdd62f, 0x196bee77, 0x644a3da5, 0x1181ed99, 0x18c623f9)
  {
    hide Four, Rounds, W;
    SixteenRounds(b, 0);
    Turns0();
  }

  lemma Rounds16(b: block)
    requires Words16(b) && Rounds(H0, b, 16) == Hash(0x20bdd62f, 0x196bee77, 0x644a3da5, 0x1181ed99, 0x18c623f9)
    ensures Rounds(H0, b, 32) == Hash(0x3b845d33, 0x1267b407, 0x717eebd7, 0xa0dc2d4b, 0xd2aa1365)
  {
    hide Four, Rounds, W;
    SixteenRounds(b, 16);
    Turns16();
  }

  lemma Rounds32(b: block)
    requires Words32(b) && Rounds(H0, b, 32) == Hash(0x3b845d33, 0x1267b407, 0x717eebd7, 0xa0dc2d4b, 0xd2aa1365)
    ensures Rounds(H0, b, 48) == Hash(0xbead02ca, 0xa01b846c, 0x8714787c, 0x503ca382, 0xfb86c6ab)
  {
    hide Four, Rounds, W;
    SixteenRounds(b, 32);
    Turns32();
  }

  lemma Rounds48(b: block)
    requires Words48(b) && Rounds(H0, b, 48) == Hash(0xbead02ca, 0xa01b846c, 0x8714787c, 0x503ca382, 0xfb86c6ab)
    ensures Rounds(H0, b, 64) == Hash(0x6b61c9e1, 0xb66c020b, 0x9523272c, 0xf5d5b051, 0x8fd4b796)
  {
    hide Four, Rounds, W;
    SixteenRounds(b, 48);
    Turns48();
  }

  lemma Rounds64(b: block)
    requires Words64(b) && Rounds(H0, b, 64) == Hash(0x6b61c9e1, 0xb66c020b, 0x9523272c, 0xf5d5b051, 0x8fd4b796)
    ensures Rounds(H0, b, 80) == Hash(0x42541b35, 0x5738d5e1, 0x21834873, 0x681e6df6, 0xd8fdf6ad)
  {
    hide Four, Rounds, W;
    SixteenRounds(b, 64);
    Turns64();
  }

  // ---------------------------------------------------------------------------------------------
  // The digest

  const ABC: seq<octet> := [0x61, 0x62, 0x63]

  lemma LengthOctets()
    ensures BigEndian(24, 8) == Zeros(7) + [24]
  {
    assert BigEndian(0, 1) == [0];
    assert BigEndian(0, 2) == [0, 0];
    assert BigEndian(0, 3) == [0, 0, 0];
    assert BigEndian(0, 5) == [0, 0, 0, 0, 0];
    assert BigEndian(0, 7) == [0, 0, 0, 0, 0, 0, 0];
  }

  lemma AbcPadded()
    ensures Pad(ABC) == ABC + [0x80] + Zeros(59) + [24] && Blocks(Pad(ABC)) == [Pad(ABC)]
  {
    hide BigEndian;
    LengthOctets();
    var p := Pad(ABC);
    assert Zeros(52) + Zeros(7) == Zeros(59);
    assert p == ABC + [0x80] + Zeros(52) + (Zeros(7) + [24]);
    assert p[0..64] == p;
  }

  lemma AbcWords(b: block)
    requires b == ABC + [0x80] + Zeros(59) + [24]
    ensures Words0(b)
  {
    forall t | 1 <= t <= 14 ensures W(b, t) == 0 {
      assert b[4 * t] == b[4 * t + 1] == b[4 * t + 2] == b[4 * t + 3] == 0;
    }
  }

  lemma AbcRounds(b: block)
    requires Words0(b)
    ensures Rounds(H0, b, 80) == Hash(0x42541b35, 0x5738d5e1, 0x21834873, 0x681e6df6, 0xd8fdf6ad)
  {
    assert Rounds(H0, b, 0) == H0;
    hide W, Rounds, Words0, Words16, Words32, Words48, Words64;
    Schedule16(b);
    Schedule32(b);
    Schedule48(b);
    Schedule64(b);
    Rounds0(b);
    Rounds16(b);
    Rounds32(b);
    Rounds48(b);
    Rounds64(b);
  }

  lemma AbcCompressed(b: block)
    requires Words0(b)
    ensures Fold(H0, [b]) == Hash(0xa9993e36, 0x4706816a, 0xba3e2571, 0x7850c26c, 0x9cd0d89d)
  {
    hide Words0, W, Rounds;
    AbcRounds(b);
    assert [b][..0] == [];
    assert Fold(H0, [b]) == Compress(H0, b);
  }

  lemma AbcDigest()
    ensures Digest(Hash(0xa9993e36, 0x4706816a, 0xba3e2571, 0x7850c26c, 0x9cd0d89d)) ==
            [0xa9, 0x99, 0x3e, 0x36, 0x47, 0x06, 0x81, 0x6a, 0xba, 0x3e,
             0x25, 0x71, 0x78, 0x50, 0xc2, 0x6c, 0x9c, 0xd0, 0xd8, 0x9d]
  {
  }

  /** SHA-1 of "abc" is the published digest. */
  lemma DigestOfAbc()
    ensures Sha(ABC) == [0xa9, 0x99, 0x3e, 0x36, 0x47, 0x06, 0x81, 0x6a, 0xba, 0x3e,
                         0x25, 0x71, 0x78, 0x50, 0xc2, 0x6c, 0x9c, 0xd0, 0xd8, 0x9d]
  {
    AbcPadded();
    AbcWords(Pad(ABC));
    AbcCompressed(Pad(ABC));
    hide Pad, Blocks, Words0;
    AbcDigest();
  }
}
