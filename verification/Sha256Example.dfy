/**
 The standard's one-block example: the hash of "abc", worked out word by word and round by round, is
 the published digest.
 */
module Sha256Example {
  import opened Bytes
  import opened Sha256

  const ABC: bytes := [0x61, 0x62, 0x63]

  /** "abc" with its padding: a one bit, zeros, and the length of 24 bits. */
  const BLOCK: bytes := [0x61, 0x62, 0x63, 0x80] + Zeros(59) + [24]

  lemma BlockIs()
    ensures |BLOCK| == 64 && ABC + Padding(|ABC|) == BLOCK
  {
    assert PadZeros(3) == 52;
    LengthOctets();
    assert Zeros(59) == Zeros(52) + Zeros(7);
    assert Padding(3) == [0x80] + Zeros(52) + (Zeros(7) + [24]);
  }

  lemma LengthOctets()
    ensures BigEndian(24, 8) == Zeros(7) + [24]
  {
    ZeroOctets(7);
    assert BigEndian(24, 8) == BigEndian(0, 7) + [24];
  }

  lemma {:induction false} ZeroOctets(width: nat)
    ensures BigEndian(0, width) == Zeros(width)
  {
    if width != 0 {
      ZeroOctets(width - 1);
    }
  }

  // ---------- The schedule ----------

  lemma FirstWord()
    ensures |BLOCK| == 64 && Schedule(BLOCK, 0) == 0x61626380
  {
    hide Schedule, ToWord;
    ScheduleStarts(BLOCK, 0);
    assert BLOCK[0..4] == [0x61, 0x62, 0x63, 0x80];
    assert BigEndian32([0x61, 0x62, 0x63, 0x80]) == ToWord(0x61626380);
    WordIsLiteral();
  }

  lemma LastWord()
    ensures |BLOCK| == 64 && Schedule(BLOCK, 15) == 0x18
  {
    hide Schedule, ToWord;
    ScheduleStarts(BLOCK, 15);
    assert BLOCK[60..64] == [0, 0, 0, 24];
    assert BigEndian32([0, 0, 0, 24]) == ToWord(24);
    WordIsLiteral();
  }

  lemma WordIsLiteral()
    ensures ToWord(0x61626380) == 0x61626380 && ToWord(24) == 24 && ToWord(0) == 0
  {
  }

  lemma ZeroWord(t: nat)
    requires 1 <= t < 15
    ensures |BLOCK| == 64 && Schedule(BLOCK, t) == 0
  {
    hide Schedule, ToWord;
    ScheduleStarts(BLOCK, t);
    assert BLOCK[4 * t..4 * t + 4] == [0, 0, 0, 0];
    assert BigEndian32([0, 0, 0, 0]) == ToWord(0);
    WordIsLiteral();
  }

  ghost predicate WordIs(t: nat, w: word) { |BLOCK| == 64 && t < 64 && Schedule(BLOCK, t) == w }

  lemma NextWord(t: nat, w2: word, w7: word, w15: word, w16: word, w: word)
    requires 16 <= t < 64 && WordIs(t - 2, w2) && WordIs(t - 7, w7) && WordIs(t - 15, w15) && WordIs(t - 16, w16)
    requires Plus(Plus(Plus(SmallSigma1(w2), w7), SmallSigma0(w15)), w16) == w
    ensures WordIs(t, w)
  {
    hide Schedule, Plus, SmallSigma0, SmallSigma1;
    ScheduleExtends(BLOCK, t);
  }

  lemma WordsFrom0()
    ensures WordIs(0, 0x61626380) && WordIs(1, 0x00000000) && WordIs(2, 0x00000000) && WordIs(3, 0x00000000)
    ensures WordIs(4, 0x00000000) && WordIs(5, 0x00000000) && WordIs(6, 0x00000000) && WordIs(7, 0x00000000)
    ensures WordIs(8, 0x00000000) && WordIs(9, 0x00000000) && WordIs(10, 0x00000000) && WordIs(11, 0x00000000)
    ensures WordIs(12, 0x00000000) && WordIs(13, 0x00000000) && WordIs(14, 0x00000000) && WordIs(15, 0x00000018)
  {
    hide Schedule;
    FirstWord();
    LastWord();
    forall t: nat | 1 <= t < 15
      ensures WordIs(t, 0)
    {
      ZeroWord(t);
    }
  }

  lemma WordsFrom16()
    ensures WordIs(16, 0x61626380) && WordIs(17, 0x000f0000) && WordIs(18, 0x7da86405) && WordIs(19, 0x600003c6)
    ensures WordIs(20, 0x3e9d7b78) && WordIs(21, 0x0183fc00) && WordIs(22, 0x12dcbfdb) && WordIs(23, 0xe2e2c38e)
  {
    hide WordIs;
    WordsFrom0();
    NextWord(16, 0x00000000, 0x00000000, 0x00000000, 0x61626380, 0x61626380);
    NextWord(17, 0x00000018, 0x00000000, 0x00000000, 0x00000000, 0x000f0000);
    NextWord(18, 0x61626380, 0x00000000, 0x00000000, 0x00000000, 0x7da86405);
    NextWord(19, 0x000f0000, 0x00000000, 0x00000000, 0x00000000, 0x600003c6);
    NextWord(20, 0x7da86405, 0x00000000, 0x00000000, 0x00000000, 0x3e9d7b78);
    NextWord(21, 0x600003c6, 0x00000000, 0x00000000, 0x00000000, 0x0183fc00);
    NextWord(22, 0x3e9d7b78, 0x00000018, 0x00000000, 0x00000000, 0x12dcbfdb);
    NextWord(23, 0x0183fc00, 0x61626380, 0x00000000, 0x00000000, 0xe2e2c38e);
  }

  lemma WordsFrom24()
    ensures WordIs(24, 0xc8215c1a) && WordIs(25, 0xb73679a2) && WordIs(26, 0xe5bc3909) && WordIs(27, 0x32663c5b)
    ensures WordIs(28, 0x9d209d67) && WordIs(29, 0xec8726cb) && WordIs(30, 0x702138a4) && WordIs(31, 0xd3b7973b)
  {
    hide WordIs;
    WordsFrom0();
    WordsFrom16();
    NextWord(24, 0x12dcbfdb, 0x000f0000, 0x00000000, 0x00000000, 0xc8215c1a);
    NextWord(25, 0xe2e2c38e, 0x7da86405, 0x00000000, 0x00000000, 0xb73679a2);
    NextWord(26, 0xc8215c1a, 0x600003c6, 0x00000000, 0x00000000, 0xe5bc3909);
    NextWord(27, 0xb73679a2, 0x3e9d7b78, 0x00000000, 0x00000000, 0x32663c5b);
    NextWord(28, 0xe5bc3909, 0x0183fc00, 0x00000000, 0x00000000, 0x9d209d67);
    NextWord(29, 0x32663c5b, 0x12dcbfdb, 0x00000000, 0x00000000, 0xec8726cb);
    NextWord(30, 0x9d209d67, 0xe2e2c38e, 0x00000018, 0x00000000, 0x702138a4);
    NextWord(31, 0xec8726cb, 0xc8215c1a, 0x61626380, 0x00000018, 0xd3b7973b);
  }

  lemma WordsFrom32()
    ensures WordIs(32, 0x93f5997f) && WordIs(33, 0x3b68ba73) && WordIs(34, 0xaff4ffc1) && WordIs(35, 0xf10a5c62)
    ensures WordIs(36, 0x0a8b3996) && WordIs(37, 0x72af830a) && WordIs(38, 0x9409e33e) && WordIs(39, 0x24641522)
  {
    hide WordIs;
    WordsFrom16();
    WordsFrom24();
    NextWord(32, 0x702138a4, 0xb73679a2, 0x000f0000, 0x61626380, 0x93f5997f);
    NextWord(33, 0xd3b7973b, 0xe5bc3909, 0x7da86405, 0x000f0000, 0x3b68ba73);
    NextWord(34, 0x93f5997f, 0x32663c5b, 0x600003c6, 0x7da86405, 0xaff4ffc1);
    NextWord(35, 0x3b68ba73, 0x9d209d67, 0x3e9d7b78, 0x600003c6, 0xf10a5c62);
    NextWord(36, 0xaff4ffc1, 0xec8726cb, 0x0183fc00, 0x3e9d7b78, 0x0a8b3996);
    NextWord(37, 0xf10a5c62, 0x702138a4, 0x12dcbfdb, 0x0183fc00, 0x72af830a);
    NextWord(38, 0x0a8b3996, 0xd3b7973b, 0xe2e2c38e, 0x12dcbfdb, 0x9409e33e);
    NextWord(39, 0x72af830a, 0x93f5997f, 0xc8215c1a, 0xe2e2c38e, 0x24641522);
  }

  lemma WordsFrom40()
    ensures WordIs(40, 0x9f47bf94) && WordIs(41, 0xf0a64f5a) && WordIs(42, 0x3e246a79) && WordIs(43, 0x27333ba3)
    ensures WordIs(44, 0x0c4763f2) && WordIs(45, 0x840abf27) && WordIs(46, 0x7a290d5d) && WordIs(47, 0x065c43da)
  {
    hide WordIs;
    WordsFrom24();
    WordsFrom32();
    NextWord(40, 0x9409e33e, 0x3b68ba73, 0xb73679a2, 0xc8215c1a, 0x9f47bf94);
    NextWord(41, 0x24641522, 0xaff4ffc1, 0xe5bc3909, 0xb73679a2, 0xf0a64f5a);
    NextWord(42, 0x9f47bf94, 0xf10a5c62, 0x32663c5b, 0xe5bc3909, 0x3e246a79);
    NextWord(43, 0xf0a64f5a, 0x0a8b3996, 0x9d209d67, 0x32663c5b, 0x27333ba3);
    NextWord(44, 0x3e246a79, 0x72af830a, 0xec8726cb, 0x9d209d67, 0x0c4763f2);
    NextWord(45, 0x27333ba3, 0x9409e33e, 0x702138a4, 0xec8726cb, 0x840abf27);
    NextWord(46, 0x0c4763f2, 0x24641522, 0xd3b7973b, 0x702138a4, 0x7a290d5d);
    NextWord(47, 0x840abf27, 0x9f47bf94, 0x93f5997f, 0xd3b7973b, 0x065c43da);
  }

  lemma WordsFrom48()
    ensures WordIs(48, 0xfb3e89cb) && WordIs(49, 0xcc7617db) && WordIs(50, 0xb9e66c34) && WordIs(51, 0xa9993667)
    ensures WordIs(52, 0x84badedd) && WordIs(53, 0xc21462bc) && WordIs(54, 0x1487472c) && WordIs(55, 0xb20f7a99)
  {
    hide WordIs;
    WordsFrom32();
    WordsFrom40();
    NextWord(48, 0x7a290d5d, 0xf0a64f5a, 0x3b68ba73, 0x93f5997f, 0xfb3e89cb);
    NextWord(49, 0x065c43da, 0x3e246a79, 0xaff4ffc1, 0x3b68ba73, 0xcc7617db);
    NextWord(50, 0xfb3e89cb, 0x27333ba3, 0xf10a5c62, 0xaff4ffc1, 0xb9e66c34);
    NextWord(51, 0xcc7617db, 0x0c4763f2, 0x0a8b3996, 0xf10a5c62, 0xa9993667);
    NextWord(52, 0xb9e66c34, 0x840abf27, 0x72af830a, 0x0a8b3996, 0x84badedd);
    NextWord(53, 0xa9993667, 0x7a290d5d, 0x9409e33e, 0x72af830a, 0xc21462bc);
    NextWord(54, 0x84badedd, 0x065c43da, 0x24641522, 0x9409e33e, 0x1487472c);
    NextWord(55, 0xc21462bc, 0xfb3e89cb, 0x9f47bf94, 0x24641522, 0xb20f7a99);
  }

  lemma WordsFrom56()
    ensures WordIs(56, 0xef57b9cd) && WordIs(57, 0xebe6b238) && WordIs(58, 0x9fe3095e) && WordIs(59, 0x78bc8d4b)
    ensures WordIs(60, 0xa43fcf15) && WordIs(61, 0x668b2ff8) && WordIs(62, 0xeeaba2cc) && WordIs(63, 0x12b1edeb)
  {
    hide WordIs;
    WordsFrom40();
    WordsFrom48();
    NextWord(56, 0x1487472c, 0xcc7617db, 0xf0a64f5a, 0x9f47bf94, 0xef57b9cd);
    NextWord(57, 0xb20f7a99, 0xb9e66c34, 0x3e246a79, 0xf0a64f5a, 0xebe6b238);
    NextWord(58, 0xef57b9cd, 0xa9993667, 0x27333ba3, 0x3e246a79, 0x9fe3095e);
    NextWord(59, 0xebe6b238, 0x84badedd, 0x0c4763f2, 0x27333ba3, 0x78bc8d4b);
    NextWord(60, 0x9fe3095e, 0xc21462bc, 0x840abf27, 0x0c4763f2, 0xa43fcf15);
    NextWord(61, 0x78bc8d4b, 0x1487472c, 0x7a290d5d, 0x840abf27, 0x668b2ff8);
    NextWord(62, 0xa43fcf15, 0xb20f7a99, 0x065c43da, 0x7a290d5d, 0xeeaba2cc);
    NextWord(63, 0x668b2ff8, 0xef57b9cd, 0xfb3e89cb, 0x065c43da, 0x12b1edeb);
  }

  // ---------- The rounds ----------

  ghost predicate RegistersAre(t: nat, r: Registers) { |BLOCK| == 64 && t <= 64 && Rounds(H0, BLOCK, t) == r }

  lemma NextRound(t: nat, r: Registers, k: word, w: word, t1: word, t2: word) returns (next: Registers)
    requires t < 64 && RegistersAre(t, r) && WordIs(t, w) && K(t) == k
    requires Plus(Plus(Plus(Plus(r.h, BigSigma1(r.e)), Ch(r.e, r.f, r.g)), k), w) == t1
    requires Plus(BigSigma0(r.a), Maj(r.a, r.b, r.c)) == t2
    ensures RegistersAre(t + 1, next) && next == Registers(t1 + t2, r.a, r.b, r.c, r.d + t1, r.e, r.f, r.g)
  {
    hide K, Schedule, Plus, BigSigma0, BigSigma1, Ch, Maj;
    PlusIs(t1, t2);
    PlusIs(r.d, t1);
    next := Registers(Plus(t1, t2), r.a, r.b, r.c, Plus(r.d, t1), r.e, r.f, r.g);
  }

  const STATE_4 := Registers(0xd550f666, 0xc8c347a7, 0x5a6ad9ad, 0x5d6aebcd,
                             0x24e00850, 0xf92939eb, 0x78ce7989, 0xfa2a4622)
  const STATE_8 := Registers(0x85a07b5f, 0xe5030380, 0x2b4209f5, 0x04409a6a,
                             0x0c657a79, 0x9b27a401, 0x714260ad, 0x43ada245)
  const STATE_12 := Registers(0xf71fc5a9, 0x4798a3f4, 0x8c87346b, 0x8e04ecb9,
                              0x816fd6e9, 0x436b23e8, 0x1cc92596, 0x32ca2d8c)
  const STATE_16 := Registers(0xb0fa238e, 0xc0645fde, 0xd932eb16, 0x87912990,
                              0x07590dcd, 0x0b92f20c, 0x745a48de, 0x1e578218)
  const STATE_20 := Registers(0xe1f20c33, 0xfe777bbf, 0xc2fbd9d1, 0x21da9a9b,
                              0xb0638179, 0xcc899961, 0x846ee454, 0x8034229c)
  const STATE_24 := Registers(0xc5d53d8d, 0xa7a3623f, 0xc2606d6d, 0x9dc68b63,
                              0xaa47c347, 0x49f5114a, 0xe1257970, 0x8ada8930)
  const STATE_28 := Registers(0x77d37528, 0xb62ec4bc, 0xcde8037d, 0x1c2c2838,
                              0xedffbff8, 0xc74c6516, 0x14383d8e, 0x2823ef91)
  const STATE_32 := Registers(0x73b33bf5, 0xea992a22, 0xa0060b30, 0x363482c9,
                              0xba591112, 0x0109ab3a, 0xade79437, 0x6112a3b7)
  const STATE_36 := Registers(0x65a0cfe4, 0xa9a7738c, 0xfe604df5, 0x98e12507,
                              0xf4b002d6, 0x085f3833, 0x59249dd3, 0x9cd9f5f6)
  const STATE_40 := Registers(0x79ea687a, 0x6dc57a8a, 0x34df1604, 0x41a65cb1,
                              0x1efbc0a0, 0xf0781bc8, 0xa507a53d, 0x0772a26b)
  const STATE_44 := Registers(0x9d4baf93, 0x17aa0dfe, 0xdf46652f, 0xd6670766,
                              0xfda24c2e, 0xdecd4715, 0x838b2711, 0x26352d63)
  const STATE_48 := Registers(0x4172328d, 0xa14c14b0, 0x72ab4b91, 0x26628815,
                              0xfecf0bc6, 0xd57b94a9, 0xb7755da1, 0xa80f11f0)
  const STATE_52 := Registers(0x886e7a22, 0x7a0508a1, 0xf11bfaa8, 0x05757ceb,
                              0x49231c1e, 0x52f1ccf7, 0x6e5c390c, 0xbd714038)
  const STATE_56 := Registers(0x38cc9913, 0x3ec45cdb, 0xf5702fdb, 0x101fd28f,
                              0x54cb266b, 0xe50e1b4f, 0x9f4787c3, 0x529e7d00)
  const STATE_60 := Registers(0xb6ae8fff, 0xffb70472, 0xc062d46f, 0xfcd1887b,
                              0xb21bad3d, 0x6d83bfc6, 0x7e44008e, 0x9b5e906c)
  const STATE_64 := Registers(0x506e3058, 0xd39a2165, 0x04d24d6c, 0xb85e2ce9,
                              0x5ef50f24, 0xfb121210, 0x948d25b6, 0x961f4894)

  lemma RoundsFrom0()
    ensures RegistersAre(4, STATE_4)
  {
    NoRounds();
    hide RegistersAre, WordIs;
    WordsFrom0();
    var r := H0;
    r := NextRound(0, r, 0x428a2f98, 0x61626380, 0x54da50e8, 0x08909ae5);
    r := NextRound(1, r, 0x71374491, 0x00000000, 0x3c5f8617, 0x1e0b5396);
    r := NextRound(2, r, 0xb5c0fbcf, 0x00000000, 0x3dc18b66, 0x8b01bc41);
    r := NextRound(3, r, 0xe9b5dba5, 0x00000000, 0xbad621e9, 0x1a7ad47d);
  }

  lemma RoundsFrom4()
    ensures RegistersAre(8, STATE_8)
  {
    hide RegistersAre, WordIs;
    RoundsFrom0();
    WordsFrom0();
    var r := STATE_4;
    r := NextRound(4, r, 0x3956c25b, 0x00000000, 0xe642b678, 0x1dfde3f2);
    r := NextRound(5, r, 0x59f111f1, 0x00000000, 0x16d78700, 0x146a82f5);
    r := NextRound(6, r, 0x923f82a4, 0x00000000, 0xd2645c5a, 0x129ea726);
    r := NextRound(7, r, 0xab1c5ed5, 0x00000000, 0x37148413, 0x4e8bf74c);
  }

  lemma RoundsFrom8()
    ensures RegistersAre(12, STATE_12)
  {
    hide RegistersAre, WordIs;
    RoundsFrom4();
    WordsFrom0();
    var r := STATE_8;
    r := NextRound(8, r, 0xd807aa98, 0x00000000, 0x2e899322, 0x5f7b5997);
    r := NextRound(9, r, 0x12835b01, 0x00000000, 0xf1871ba1, 0x9b0018ca);
    r := NextRound(10, r, 0x243185be, 0x00000000, 0x5e682068, 0xe930838c);
    r := NextRound(11, r, 0x550c7dc3, 0x00000000, 0xfbcf5b8a, 0xfb506a1f);
  }

  lemma RoundsFrom12()
    ensures RegistersAre(16, STATE_16)
  {
    hide RegistersAre, WordIs;
    RoundsFrom8();
    WordsFrom0();
    var r := STATE_12;
    r := NextRound(12, r, 0x72be5d74, 0x00000000, 0x9052955f, 0xf73e9431);
    r := NextRound(13, r, 0x80deb1fe, 0x00000000, 0xe7d31473, 0xf15fd6a3);
    r := NextRound(14, r, 0x9bdc06a7, 0x00000000, 0xc3fa4e18, 0xfc6a11c6);
    r := NextRound(15, r, 0xc19bf174, 0x00000018, 0x10394824, 0xa0c0db6a);
  }

  lemma RoundsFrom16()
    ensures RegistersAre(20, STATE_20)
  {
    hide RegistersAre, WordIs;
    RoundsFrom12();
    WordsFrom16();
    var r := STATE_16;
    r := NextRound(16, r, 0xe49b69c1, 0x61626380, 0xf8a2f90c, 0x2937a18f);
    r := NextRound(17, r, 0xefbe4786, 0x000f0000, 0xab3bf93e, 0x17bfe093);
    r := NextRound(18, r, 0x0fc19dc6, 0x7da86405, 0x0c253983, 0xf252423c);
    r := NextRound(19, r, 0x240ca1cc, 0x600003c6, 0xff695deb, 0xe288ae48);
  }

  lemma RoundsFrom20()
    ensures RegistersAre(24, STATE_24)
  {
    hide RegistersAre, WordIs;
    RoundsFrom16();
    WordsFrom16();
    var r := STATE_20;
    r := NextRound(20, r, 0x2de92c6f, 0x3e9d7b78, 0x68ffee95, 0x34c69cce);
    r := NextRound(21, r, 0x4a7484aa, 0x0183fc00, 0x1e299f9f, 0xa436cdce);
    r := NextRound(22, r, 0x5cb0a9dc, 0x12dcbfdb, 0x4b7d958b, 0x5c25ccb4);
    r := NextRound(23, r, 0x76f988da, 0xe2e2c38e, 0xc855b714, 0xfd7f8679);
  }

  lemma RoundsFrom24()
    ensures RegistersAre(28, STATE_28)
  {
    hide RegistersAre, WordIs;
    RoundsFrom20();
    WordsFrom24();
    var r := STATE_24;
    r := NextRound(24, r, 0x983e5152, 0xc8215c1a, 0x8a5d642e, 0x91cec40a);
    r := NextRound(25, r, 0xa831c66d, 0xb73679a2, 0x51d7d021, 0x7c10335c);
    r := NextRound(26, r, 0xb00327c8, 0xe5bc3909, 0x1fa902d7, 0x9685c1e5);
    r := NextRound(27, r, 0xbf597fc7, 0x32663c5b, 0x282a826b, 0x4fa8f2bd);
  }

  lemma RoundsFrom28()
    ensures RegistersAre(32, STATE_32)
  {
    hide RegistersAre, WordIs;
    RoundsFrom24();
    WordsFrom24();
    var r := STATE_28;
    r := NextRound(28, r, 0xc6e00bf3, 0x9d209d67, 0x44e67b7f, 0xf14e074a);
    r := NextRound(29, r, 0xd5a79147, 0xec8726cb, 0xdfff90ba, 0xc0067a76);
    r := NextRound(30, r, 0x06ca6351, 0x702138a4, 0x4adae67e, 0x9fbe43a4);
    r := NextRound(31, r, 0x14292967, 0xd3b7973b, 0x42859bea, 0x312da00b);
  }

  lemma RoundsFrom32()
    ensures RegistersAre(36, STATE_36)
  {
    hide RegistersAre, WordIs;
    RoundsFrom28();
    WordsFrom32();
    var r := STATE_32;
    r := NextRound(32, r, 0x27b70a85, 0x93f5997f, 0x66a5732d, 0x323bb1da);
    r := NextRound(33, r, 0x2e1b2138, 0x3b68ba73, 0xb91e92a3, 0x4541bb52);
    r := NextRound(34, r, 0x4d2c6dfc, 0xaff4ffc1, 0x1dc60e11, 0x8be1657b);
    r := NextRound(35, r, 0x53380d13, 0xf10a5c62, 0x80fcc6e1, 0xe4a40903);
  }

  lemma RoundsFrom36()
    ensures RegistersAre(40, STATE_40)
  {
    hide RegistersAre, WordIs;
    RoundsFrom32();
    WordsFrom32();
    var r := STATE_36;
    r := NextRound(36, r, 0x650a7354, 0x0a8b3996, 0x6e917d64, 0xd314df4d);
    r := NextRound(37, r, 0x766a0abb, 0x72af830a, 0xa6a75748, 0x8e37bebc);
    r := NextRound(38, r, 0x81c2c92e, 0x9409e33e, 0x46d0a83c, 0x26f4d24e);
    r := NextRound(39, r, 0x92722c85, 0x24641522, 0xb95af0bc, 0xc08f77be);
  }

  lemma RoundsFrom40()
    ensures RegistersAre(44, STATE_44)
  {
    hide RegistersAre, WordIs;
    RoundsFrom36();
    WordsFrom40();
    var r := STATE_40;
    r := NextRound(40, r, 0xa2bfe8a1, 0x9f47bf94, 0xe48ed0b2, 0xf1d836b4);
    r := NextRound(41, r, 0xa81a664b, 0xf0a64f5a, 0x4eac110d, 0x909a5422);
    r := NextRound(42, r, 0xc24b8b70, 0x3e246a79, 0x7107cc8b, 0xa6a24173);
    r := NextRound(43, r, 0xc76c51a3, 0x27333ba3, 0x83b7e3b4, 0x1993cbdf);
  }

  lemma RoundsFrom44()
    ensures RegistersAre(48, STATE_48)
  {
    hide RegistersAre, WordIs;
    RoundsFrom40();
    WordsFrom40();
    var r := STATE_44;
    r := NextRound(44, r, 0xd192e819, 0x0c4763f2, 0xd1a80a8a, 0x54ba7d8b);
    r := NextRound(45, r, 0xd6990624, 0x840abf27, 0xd82ef872, 0x9a7c531f);
    r := NextRound(46, r, 0xf40e3585, 0x7a290d5d, 0xbdd186ab, 0xe37a8e05);
    r := NextRound(47, r, 0x106aa070, 0x065c43da, 0x61835c33, 0xdfeed65a);
  }

  lemma RoundsFrom48()
    ensures RegistersAre(52, STATE_52)
  {
    hide RegistersAre, WordIs;
    RoundsFrom44();
    WordsFrom48();
    var r := STATE_48;
    r := NextRound(48, r, 0x19a4c116, 0xfb3e89cb, 0x970eb823, 0x6e66c4c8);
    r := NextRound(49, r, 0x1e376c08, 0xcc7617db, 0xfbb0ed7b, 0xf56b0d2d);
    r := NextRound(50, r, 0x2748774c, 0xb9e66c34, 0xb1a5b847, 0xc85f505a);
    r := NextRound(51, r, 0x34b0bcb5, 0xa9993667, 0x07b0e991, 0x80bd9091);
  }

  lemma RoundsFrom52()
    ensures RegistersAre(56, STATE_56)
  {
    hide RegistersAre, WordIs;
    RoundsFrom48();
    WordsFrom48();
    var r := STATE_52;
    r := NextRound(52, r, 0x391c0cb3, 0x84badedd, 0x4d290015, 0xc2f6d27a);
    r := NextRound(53, r, 0x4ed8aa4a, 0xc21462bc, 0xae2b8d1b, 0x4744a2c0);
    r := NextRound(54, r, 0x5b9cca4f, 0x1487472c, 0x6b0912ae, 0xd3bb4a2d);
    r := NextRound(55, r, 0x682e6ff3, 0xb20f7a99, 0xcc5cac49, 0x6c6fecca);
  }

  lemma RoundsFrom56()
    ensures RegistersAre(60, STATE_60)
  {
    hide RegistersAre, WordIs;
    RoundsFrom52();
    WordsFrom56();
    var r := STATE_56;
    r := NextRound(56, r, 0x748f82ee, 0xef57b9cd, 0x8b3ebddd, 0x7192ca9e);
    r := NextRound(57, r, 0x78a5636f, 0xebe6b238, 0x88d3d0b3, 0x378f03bc);
    r := NextRound(58, r, 0x84c87814, 0x9fe3095e, 0x2ebf62eb, 0xd0f7a187);
    r := NextRound(59, r, 0x8cc70208, 0x78bc8d4b, 0x794f142a, 0x3d5f7bd5);
  }

  lemma RoundsFrom60()
    ensures RegistersAre(64, STATE_64)
  {
    hide RegistersAre, WordIs;
    RoundsFrom56();
    WordsFrom56();
    var r := STATE_60;
    r := NextRound(60, r, 0x90befffa, 0xa43fcf15, 0x994dc019, 0x1f106cd0);
    r := NextRound(61, r, 0xa4506ceb, 0x668b2ff8, 0xd42a5147, 0x30a7fc25);
    r := NextRound(62, r, 0xbef9a3f7, 0xeeaba2cc, 0xfb5b0d9e, 0xd83f13c7);
    r := NextRound(63, r, 0xc67178f2, 0x12b1edeb, 0xa8467f25, 0xa827b133);
  }

  lemma NoRounds()
    ensures RegistersAre(0, H0)
  {
    FirstWord();
  }

  /** The hash value after the block. */
  const HASHED := Registers(0xba7816bf, 0x8f01cfea, 0x414140de, 0x5dae2223,
                            0xb00361a3, 0x96177a9c, 0xb410ff61, 0xf20015ad)

  lemma BlockHashes()
    ensures |BLOCK| == 64 && Compress(H0, BLOCK) == HASHED
  {
    hide Rounds;
    RoundsFrom60();
  }

  /** The published digest of "abc". */
  lemma HashOfAbc()
    ensures Sha256.Sha256(ABC)
         == [0xba, 0x78, 0x16, 0xbf] + [0x8f, 0x01, 0xcf, 0xea] + [0x41, 0x41, 0x40, 0xde] + [0x5d, 0xae, 0x22, 0x23]
            + [0xb0, 0x03, 0x61, 0xa3] + [0x96, 0x17, 0x7a, 0x9c] + [0xb4, 0x10, 0xff, 0x61] + [0xf2, 0x00, 0x15, 0xad]
  {
    hide Compress, Padding;
    BlockIs();
    BlockHashes();
    OneBlock();
    DigestIs();
  }

  lemma OneBlock()
    requires |BLOCK| == 64
    ensures HashBlocks(BLOCK) == Compress(H0, BLOCK)
  {
    hide Compress;
    assert BLOCK[..0] == [] && BLOCK[0..] == BLOCK;
  }

  lemma OctetsAre(w: word, n: nat, s: bytes)
    requires w as int == n < 0x1_0000_0000 && OctetsOf(n) == s
    ensures Octets(w) == s
  {
    hide OctetsOf;
  }

  lemma DigestIs()
    ensures Digest(HASHED)
         == [0xba, 0x78, 0x16, 0xbf] + [0x8f, 0x01, 0xcf, 0xea] + [0x41, 0x41, 0x40, 0xde] + [0x5d, 0xae, 0x22, 0x23]
            + [0xb0, 0x03, 0x61, 0xa3] + [0x96, 0x17, 0x7a, 0x9c] + [0xb4, 0x10, 0xff, 0x61] + [0xf2, 0x00, 0x15, 0xad]
  {
    hide Octets;
    OctetsAre(0xba7816bf, 0xba7816bf, [0xba, 0x78, 0x16, 0xbf]);
    OctetsAre(0x8f01cfea, 0x8f01cfea, [0x8f, 0x01, 0xcf, 0xea]);
    OctetsAre(0x414140de, 0x414140de, [0x41, 0x41, 0x40, 0xde]);
    OctetsAre(0x5dae2223, 0x5dae2223, [0x5d, 0xae, 0x22, 0x23]);
    OctetsAre(0xb00361a3, 0xb00361a3, [0xb0, 0x03, 0x61, 0xa3]);
    OctetsAre(0x96177a9c, 0x96177a9c, [0x96, 0x17, 0x7a, 0x9c]);
    OctetsAre(0xb410ff61, 0xb410ff61, [0xb4, 0x10, 0xff, 0x61]);
    OctetsAre(0xf20015ad, 0xf20015ad, [0xf2, 0x00, 0x15, 0xad]);
  }
}
