/**
 Published digests, computed round by round: the one-block and the two-block example for SHA-256 that FIPS 180
 gives.
 */
module Sha256Examples {
  import opened Bytes
  import opened Sha256

  // ---- one round at a time -----------------------------------------------------------------

  datatype Row = Row(w0: Word, w1: Word, w2: Word, w3: Word)

  function Then(s: State, a: Word, e: Word): State { State(a, s.a, s.b, s.c, e, s.e, s.f, s.g) }

  /** Four words of the schedule. */
  ghost predicate SpellsRow(block: seq<byte>, r: nat, w: Row)
    requires |block| == 64 && r < 16
  {
    && Schedule(block, 4 * r) == w.w0 && Schedule(block, 4 * r + 1) == w.w1
    && Schedule(block, 4 * r + 2) == w.w2 && Schedule(block, 4 * r + 3) == w.w3
  }

  function NextWord(a: Word, b: Word, c: Word, d: Word): Word { Add(Add(Add(a, SmallSigma0(b)), c), SmallSigma1(d)) }

  /** A row follows from the four rows before it. */
  predicate RowFollows(x: Row, y: Row, z: Row, w: Row, n: Row) {
    && n.w0 == NextWord(x.w0, x.w1, z.w1, w.w2) && n.w1 == NextWord(x.w1, x.w2, z.w2, w.w3)
    && n.w2 == NextWord(x.w2, x.w3, z.w3, n.w0) && n.w3 == NextWord(x.w3, y.w0, w.w0, n.w1)
  }

  lemma RowSpelled(block: seq<byte>, r: nat, x: Row, y: Row, z: Row, w: Row, n: Row)
    requires |block| == 64 && 4 <= r < 16 && RowFollows(x, y, z, w, n)
    requires SpellsRow(block, r - 4, x) && SpellsRow(block, r - 3, y)
    requires SpellsRow(block, r - 2, z) && SpellsRow(block, r - 1, w)
    ensures SpellsRow(block, r, n)
  {
    hide NextWord, Schedule;
    WordSpelled(block, 4 * r);
    WordSpelled(block, 4 * r + 1);
    WordSpelled(block, 4 * r + 2);
    WordSpelled(block, 4 * r + 3);
  }

  lemma WordSpelled(block: seq<byte>, t: nat)
    requires |block| == 64 && 16 <= t < 64
    ensures Schedule(block, t)
      == NextWord(Schedule(block, t - 16), Schedule(block, t - 15), Schedule(block, t - 7), Schedule(block, t - 2))
  {
    hide Add, SmallSigma0, SmallSigma1;
  }

  /** Round `t` puts `a` and `e` into the working variables. */
  lemma Go(block: seq<byte>, start: State, t: nat, s: State, w: Word, a: Word, e: Word) returns (n: State)
    requires |block| == 64 && t < 64 && Schedule(block, t) == w && Rounds(start, block, t) == s
    requires Round(s, K(t), w) == Then(s, a, e)
    ensures n == Then(s, a, e) && Rounds(start, block, t + 1) == n
  {
    hide Round, Schedule, K;
    n := Then(s, a, e);
  }

  lemma Constants0()
    ensures K(0) == 0x428a2f98 && K(1) == 0x71374491 && K(2) == 0xb5c0fbcf && K(3) == 0xe9b5dba5
    ensures K(4) == 0x3956c25b && K(5) == 0x59f111f1 && K(6) == 0x923f82a4 && K(7) == 0xab1c5ed5
  {
  }

  lemma Constants8()
    ensures K(8) == 0xd807aa98 && K(9) == 0x12835b01 && K(10) == 0x243185be && K(11) == 0x550c7dc3
    ensures K(12) == 0x72be5d74 && K(13) == 0x80deb1fe && K(14) == 0x9bdc06a7 && K(15) == 0xc19bf174
  {
  }

  lemma Constants16()
    ensures K(16) == 0xe49b69c1 && K(17) == 0xefbe4786 && K(18) == 0x0fc19dc6 && K(19) == 0x240ca1cc
    ensures K(20) == 0x2de92c6f && K(21) == 0x4a7484aa && K(22) == 0x5cb0a9dc && K(23) == 0x76f988da
  {
  }

  lemma Constants24()
    ensures K(24) == 0x983e5152 && K(25) == 0xa831c66d && K(26) == 0xb00327c8 && K(27) == 0xbf597fc7
    ensures K(28) == 0xc6e00bf3 && K(29) == 0xd5a79147 && K(30) == 0x06ca6351 && K(31) == 0x14292967
  {
  }

  lemma Constants32()
    ensures K(32) == 0x27b70a85 && K(33) == 0x2e1b2138 && K(34) == 0x4d2c6dfc && K(35) == 0x53380d13
    ensures K(36) == 0x650a7354 && K(37) == 0x766a0abb && K(38) == 0x81c2c92e && K(39) == 0x92722c85
  {
  }

  lemma Constants40()
    ensures K(40) == 0xa2bfe8a1 && K(41) == 0xa81a664b && K(42) == 0xc24b8b70 && K(43) == 0xc76c51a3
    ensures K(44) == 0xd192e819 && K(45) == 0xd6990624 && K(46) == 0xf40e3585 && K(47) == 0x106aa070
  {
  }

  lemma Constants48()
    ensures K(48) == 0x19a4c116 && K(49) == 0x1e376c08 && K(50) == 0x2748774c && K(51) == 0x34b0bcb5
    ensures K(52) == 0x391c0cb3 && K(53) == 0x4ed8aa4a && K(54) == 0x5b9cca4f && K(55) == 0x682e6ff3
  {
  }

  lemma Constants56()
    ensures K(56) == 0x748f82ee && K(57) == 0x78a5636f && K(58) == 0x84c87814 && K(59) == 0x8cc70208
    ensures K(60) == 0x90befffa && K(61) == 0xa4506ceb && K(62) == 0xbef9a3f7 && K(63) == 0xc67178f2
  {
  }

  lemma NoRounds(start: State, block: seq<byte>)
    requires |block| == 64
    ensures Rounds(start, block, 0) == start
  {
  }

  // ---- bytes and words -----------------------------------------------------------------------

  lemma LoadsAt(block: seq<byte>, t: nat, p: seq<byte>, v: Word)
    requires |block| == 64 && t < 16 && block[4 * t..4 * t + 4] == p && LoadBigEndian(p) == v
    ensures Schedule(block, t) == v
  {
    hide LoadBigEndian;
  }

  lemma BytesLoaded()
    ensures Load8(0) == 0 && Load8(1) == 1 && Load8(0x18) == 0x18 && Load8(0x80) == 0x80 && Load8(0xc0) == 0xc0
  {
  }

  lemma LettersLoaded()
    ensures Load8(0x61) == 0x61 && Load8(0x62) == 0x62 && Load8(0x63) == 0x63 && Load8(0x64) == 0x64 && Load8(0x65) == 0x65
    ensures Load8(0x66) == 0x66 && Load8(0x67) == 0x67 && Load8(0x68) == 0x68 && Load8(0x69) == 0x69 && Load8(0x6a) == 0x6a
    ensures Load8(0x6b) == 0x6b && Load8(0x6c) == 0x6c && Load8(0x6d) == 0x6d && Load8(0x6e) == 0x6e && Load8(0x6f) == 0x6f
    ensures Load8(0x70) == 0x70 && Load8(0x71) == 0x71
  {
  }

  lemma ZerosLoaded()
    ensures LoadBigEndian(Zeros(4)) == 0
  {
    BytesLoaded();
    hide Load8;
  }

  lemma ZeroWord(block: seq<byte>, t: nat)
    requires |block| == 64 && t < 16 && forall j | 4 * t <= j < 4 * t + 4 :: block[j] == 0
    ensures Schedule(block, t) == 0
  {
    ZerosLoaded();
    assert block[4 * t..4 * t + 4] == Zeros(4);
    LoadsAt(block, t, Zeros(4), 0);
  }

  lemma {:induction false} ShiftedOut(v: nat, k: nat)
    requires v < Pow2(k)
    ensures Shr(v, k) == 0
  {
    if k > 0 { ShiftedOut(v / 2, k - 1); }
  }

  lemma PowerGrows(k: nat)
    requires k >= 16
    ensures Pow2(k) >= 0x1_0000
  {
    if k == 16 { assert Pow2(16) == 0x100 * Pow2(8) && Pow2(8) == 0x100; } else { PowerGrows(k - 1); }
  }

  /** The length field of a short message. */
  lemma ShortLength(n: nat)
    requires n < 0x1_0000
    ensures BigEndian64(n) == Zeros(6) + [n / 0x100, n % 0x100]
  {
    forall i | 0 <= i < 6
      ensures BigEndian64(n)[i] == 0
    {
      PowerGrows((7 - i) * 8);
      ShiftedOut(n, (7 - i) * 8);
    }
    assert Shr(n, 8) == n / 0x100 by { ByteShift(n); }
    assert Shr(n, 0) == n;
    assert n / 0x100 < 0x100;
  }

  lemma ByteShift(n: nat)
    ensures Shr(n, 8) == n / 0x100
  {
    ShrStep(n, 7);
    ShrStep(n, 6);
    ShrStep(n, 5);
    ShrStep(n, 4);
    ShrStep(n, 3);
    ShrStep(n, 2);
    ShrStep(n, 1);
    ShrStep(n, 0);
    assert Shr(n, 0) == n;
  }

  // ---- the message abc -----------------------------------------------------------------------

  const ABC_0 := Row(0x61626380, 0x00000000, 0x00000000, 0x00000000)
  const ABC_1 := Row(0x00000000, 0x00000000, 0x00000000, 0x00000000)
  const ABC_2 := Row(0x00000000, 0x00000000, 0x00000000, 0x00000000)
  const ABC_3 := Row(0x00000000, 0x00000000, 0x00000000, 0x00000018)
  const ABC_4 := Row(0x61626380, 0x000f0000, 0x7da86405, 0x600003c6)
  const ABC_5 := Row(0x3e9d7b78, 0x0183fc00, 0x12dcbfdb, 0xe2e2c38e)
  const ABC_6 := Row(0xc8215c1a, 0xb73679a2, 0xe5bc3909, 0x32663c5b)
  const ABC_7 := Row(0x9d209d67, 0xec8726cb, 0x702138a4, 0xd3b7973b)
  const ABC_8 := Row(0x93f5997f, 0x3b68ba73, 0xaff4ffc1, 0xf10a5c62)
  const ABC_9 := Row(0x0a8b3996, 0x72af830a, 0x9409e33e, 0x24641522)
  const ABC_10 := Row(0x9f47bf94, 0xf0a64f5a, 0x3e246a79, 0x27333ba3)
  const ABC_11 := Row(0x0c4763f2, 0x840abf27, 0x7a290d5d, 0x065c43da)
  const ABC_12 := Row(0xfb3e89cb, 0xcc7617db, 0xb9e66c34, 0xa9993667)
  const ABC_13 := Row(0x84badedd, 0xc21462bc, 0x1487472c, 0xb20f7a99)
  const ABC_14 := Row(0xef57b9cd, 0xebe6b238, 0x9fe3095e, 0x78bc8d4b)
  const ABC_15 := Row(0xa43fcf15, 0x668b2ff8, 0xeeaba2cc, 0x12b1edeb)

  lemma AbcWords16(block: seq<byte>)
    requires |block| == 64
    requires SpellsRow(block, 0, ABC_0) && SpellsRow(block, 1, ABC_1)
    requires SpellsRow(block, 2, ABC_2) && SpellsRow(block, 3, ABC_3)
    ensures SpellsRow(block, 4, ABC_4) && SpellsRow(block, 5, ABC_5)
    ensures SpellsRow(block, 6, ABC_6) && SpellsRow(block, 7, ABC_7)
  {
    hide SpellsRow;
    RowSpelled(block, 4, ABC_0, ABC_1, ABC_2, ABC_3, ABC_4);
    RowSpelled(block, 5, ABC_1, ABC_2, ABC_3, ABC_4, ABC_5);
    RowSpelled(block, 6, ABC_2, ABC_3, ABC_4, ABC_5, ABC_6);
    RowSpelled(block, 7, ABC_3, ABC_4, ABC_5, ABC_6, ABC_7);
  }

  lemma AbcWords32(block: seq<byte>)
    requires |block| == 64
    requires SpellsRow(block, 4, ABC_4) && SpellsRow(block, 5, ABC_5)
    requires SpellsRow(block, 6, ABC_6) && SpellsRow(block, 7, ABC_7)
    ensures SpellsRow(block, 8, ABC_8) && SpellsRow(block, 9, ABC_9)
    ensures SpellsRow(block, 10, ABC_10) && SpellsRow(block, 11, ABC_11)
  {
    hide SpellsRow;
    RowSpelled(block, 8, ABC_4, ABC_5, ABC_6, ABC_7, ABC_8);
    RowSpelled(block, 9, ABC_5, ABC_6, ABC_7, ABC_8, ABC_9);
    RowSpelled(block, 10, ABC_6, ABC_7, ABC_8, ABC_9, ABC_10);
    RowSpelled(block, 11, ABC_7, ABC_8, ABC_9, ABC_10, ABC_11);
  }

  lemma AbcWords48(block: seq<byte>)
    requires |block| == 64
    requires SpellsRow(block, 8, ABC_8) && SpellsRow(block, 9, ABC_9)
    requires SpellsRow(block, 10, ABC_10) && SpellsRow(block, 11, ABC_11)
    ensures SpellsRow(block, 12, ABC_12) && SpellsRow(block, 13, ABC_13)
    ensures SpellsRow(block, 14, ABC_14) && SpellsRow(block, 15, ABC_15)
  {
    hide SpellsRow;
    RowSpelled(block, 12, ABC_8, ABC_9, ABC_10, ABC_11, ABC_12);
    RowSpelled(block, 13, ABC_9, ABC_10, ABC_11, ABC_12, ABC_13);
    RowSpelled(block, 14, ABC_10, ABC_11, ABC_12, ABC_13, ABC_14);
    RowSpelled(block, 15, ABC_11, ABC_12, ABC_13, ABC_14, ABC_15);
  }

  lemma AbcRounds8(block: seq<byte>, start: State)
    requires |block| == 64
    requires SpellsRow(block, 0, ABC_0) && SpellsRow(block, 1, ABC_1)
    requires Rounds(start, block, 0)
      == State(0x6a09e667, 0xbb67ae85, 0x3c6ef372, 0xa54ff53a, 0x510e527f, 0x9b05688c, 0x1f83d9ab, 0x5be0cd19)
    ensures Rounds(start, block, 8)
      == State(0x85a07b5f, 0xe5030380, 0x2b4209f5, 0x04409a6a, 0x0c657a79, 0x9b27a401, 0x714260ad, 0x43ada245)
  {
    hide Schedule, Rounds, K;
    Constants0();
    var s := Rounds(start, block, 0);
    s := Go(block, start, 0, s, 0x61626380, 0x5d6aebcd, 0xfa2a4622);
    s := Go(block, start, 1, s, 0x00000000, 0x5a6ad9ad, 0x78ce7989);
    s := Go(block, start, 2, s, 0x00000000, 0xc8c347a7, 0xf92939eb);
    s := Go(block, start, 3, s, 0x00000000, 0xd550f666, 0x24e00850);
    s := Go(block, start, 4, s, 0x00000000, 0x04409a6a, 0x43ada245);
    s := Go(block, start, 5, s, 0x00000000, 0x2b4209f5, 0x714260ad);
    s := Go(block, start, 6, s, 0x00000000, 0xe5030380, 0x9b27a401);
    s := Go(block, start, 7, s, 0x00000000, 0x85a07b5f, 0x0c657a79);
  }

  lemma AbcRounds16(block: seq<byte>, start: State)
    requires |block| == 64
    requires SpellsRow(block, 2, ABC_2) && SpellsRow(block, 3, ABC_3)
    requires Rounds(start, block, 8)
      == State(0x85a07b5f, 0xe5030380, 0x2b4209f5, 0x04409a6a, 0x0c657a79, 0x9b27a401, 0x714260ad, 0x43ada245)
    ensures Rounds(start, block, 16)
      == State(0xb0fa238e, 0xc0645fde, 0xd932eb16, 0x87912990, 0x07590dcd, 0x0b92f20c, 0x745a48de, 0x1e578218)
  {
    hide Schedule, Rounds, K;
    Constants8();
    var s := Rounds(start, block, 8);
    s := Go(block, start, 8, s, 0x00000000, 0x8e04ecb9, 0x32ca2d8c);
    s := Go(block, start, 9, s, 0x00000000, 0x8c87346b, 0x1cc92596);
    s := Go(block, start, 10, s, 0x00000000, 0x4798a3f4, 0x436b23e8);
    s := Go(block, start, 11, s, 0x00000000, 0xf71fc5a9, 0x816fd6e9);
    s := Go(block, start, 12, s, 0x00000000, 0x87912990, 0x1e578218);
    s := Go(block, start, 13, s, 0x00000000, 0xd932eb16, 0x745a48de);
    s := Go(block, start, 14, s, 0x00000000, 0xc0645fde, 0x0b92f20c);
    s := Go(block, start, 15, s, 0x00000018, 0xb0fa238e, 0x07590dcd);
  }

  lemma AbcRounds24(block: seq<byte>, start: State)
    requires |block| == 64
    requires SpellsRow(block, 4, ABC_4) && SpellsRow(block, 5, ABC_5)
    requires Rounds(start, block, 16)
      == State(0xb0fa238e, 0xc0645fde, 0xd932eb16, 0x87912990, 0x07590dcd, 0x0b92f20c, 0x745a48de, 0x1e578218)
    ensures Rounds(start, block, 24)
      == State(0xc5d53d8d, 0xa7a3623f, 0xc2606d6d, 0x9dc68b63, 0xaa47c347, 0x49f5114a, 0xe1257970, 0x8ada8930)
  {
    hide Schedule, Rounds, K;
    Constants16();
    var s := Rounds(start, block, 16);
    s := Go(block, start, 16, s, 0x61626380, 0x21da9a9b, 0x8034229c);
    s := Go(block, start, 17, s, 0x000f0000, 0xc2fbd9d1, 0x846ee454);
    s := Go(block, start, 18, s, 0x7da86405, 0xfe777bbf, 0xcc899961);
    s := Go(block, start, 19, s, 0x600003c6, 0xe1f20c33, 0xb0638179);
    s := Go(block, start, 20, s, 0x3e9d7b78, 0x9dc68b63, 0x8ada8930);
    s := Go(block, start, 21, s, 0x0183fc00, 0xc2606d6d, 0xe1257970);
    s := Go(block, start, 22, s, 0x12dcbfdb, 0xa7a3623f, 0x49f5114a);
    s := Go(block, start, 23, s, 0xe2e2c38e, 0xc5d53d8d, 0xaa47c347);
  }

  lemma AbcRounds32(block: seq<byte>, start: State)
    requires |block| == 64
    requires SpellsRow(block, 6, ABC_6) && SpellsRow(block, 7, ABC_7)
    requires Rounds(start, block, 24)
      == State(0xc5d53d8d, 0xa7a3623f, 0xc2606d6d, 0x9dc68b63, 0xaa47c347, 0x49f5114a, 0xe1257970, 0x8ada8930)
    ensures Rounds(start, block, 32)
      == State(0x73b33bf5, 0xea992a22, 0xa0060b30, 0x363482c9, 0xba591112, 0x0109ab3a, 0xade79437, 0x6112a3b7)
  {
    hide Schedule, Rounds, K;
    Constants24();
    var s := Rounds(start, block, 24);
    s := Go(block, start, 24, s, 0xc8215c1a, 0x1c2c2838, 0x2823ef91);
    s := Go(block, start, 25, s, 0xb73679a2, 0xcde8037d, 0x14383d8e);
    s := Go(block, start, 26, s, 0xe5bc3909, 0xb62ec4bc, 0xc74c6516);
    s := Go(block, start, 27, s, 0x32663c5b, 0x77d37528, 0xedffbff8);
    s := Go(block, start, 28, s, 0x9d209d67, 0x363482c9, 0x6112a3b7);
    s := Go(block, start, 29, s, 0xec8726cb, 0xa0060b30, 0xade79437);
    s := Go(block, start, 30, s, 0x702138a4, 0xea992a22, 0x0109ab3a);
    s := Go(block, start, 31, s, 0xd3b7973b, 0x73b33bf5, 0xba591112);
  }

  lemma AbcRounds40(block: seq<byte>, start: State)
    requires |block| == 64
    requires SpellsRow(block, 8, ABC_8) && SpellsRow(block, 9, ABC_9)
    requires Rounds(start, block, 32)
      == State(0x73b33bf5, 0xea992a22, 0xa0060b30, 0x363482c9, 0xba591112, 0x0109ab3a, 0xade79437, 0x6112a3b7)
    ensures Rounds(start, block, 40)
      == State(0x79ea687a, 0x6dc57a8a, 0x34df1604, 0x41a65cb1, 0x1efbc0a0, 0xf0781bc8, 0xa507a53d, 0x0772a26b)
  {
    hide Schedule, Rounds, K;
    Constants32();
    var s := Rounds(start, block, 32);
    s := Go(block, start, 32, s, 0x93f5997f, 0x98e12507, 0x9cd9f5f6);
    s := Go(block, start, 33, s, 0x3b68ba73, 0xfe604df5, 0x59249dd3);
    s := Go(block, start, 34, s, 0xaff4ffc1, 0xa9a7738c, 0x085f3833);
    s := Go(block, start, 35, s, 0xf10a5c62, 0x65a0cfe4, 0xf4b002d6);
    s := Go(block, start, 36, s, 0x0a8b3996, 0x41a65cb1, 0x0772a26b);
    s := Go(block, start, 37, s, 0x72af830a, 0x34df1604, 0xa507a53d);
    s := Go(block, start, 38, s, 0x9409e33e, 0x6dc57a8a, 0xf0781bc8);
    s := Go(block, start, 39, s, 0x24641522, 0x79ea687a, 0x1efbc0a0);
  }

  lemma AbcRounds48(block: seq<byte>, start: State)
    requires |block| == 64
    requires SpellsRow(block, 10, ABC_10) && SpellsRow(block, 11, ABC_11)
    requires Rounds(start, block, 40)
      == State(0x79ea687a, 0x6dc57a8a, 0x34df1604, 0x41a65cb1, 0x1efbc0a0, 0xf0781bc8, 0xa507a53d, 0x0772a26b)
    ensures Rounds(start, block, 48)
      == State(0x4172328d, 0xa14c14b0, 0x72ab4b91, 0x26628815, 0xfecf0bc6, 0xd57b94a9, 0xb7755da1, 0xa80f11f0)
  {
    hide Schedule, Rounds, K;
    Constants40();
    var s := Rounds(start, block, 40);
    s := Go(block, start, 40, s, 0x9f47bf94, 0xd6670766, 0x26352d63);
    s := Go(block, start, 41, s, 0xf0a64f5a, 0xdf46652f, 0x838b2711);
    s := Go(block, start, 42, s, 0x3e246a79, 0x17aa0dfe, 0xdecd4715);
    s := Go(block, start, 43, s, 0x27333ba3, 0x9d4baf93, 0xfda24c2e);
    s := Go(block, start, 44, s, 0x0c4763f2, 0x26628815, 0xa80f11f0);
    s := Go(block, start, 45, s, 0x840abf27, 0x72ab4b91, 0xb7755da1);
    s := Go(block, start, 46, s, 0x7a290d5d, 0xa14c14b0, 0xd57b94a9);
    s := Go(block, start, 47, s, 0x065c43da, 0x4172328d, 0xfecf0bc6);
  }

  lemma AbcRounds56(block: seq<byte>, start: State)
    requires |block| == 64
    requires SpellsRow(block, 12, ABC_12) && SpellsRow(block, 13, ABC_13)
    requires Rounds(start, block, 48)
      == State(0x4172328d, 0xa14c14b0, 0x72ab4b91, 0x26628815, 0xfecf0bc6, 0xd57b94a9, 0xb7755da1, 0xa80f11f0)
    ensures Rounds(start, block, 56)
      == State(0x38cc9913, 0x3ec45cdb, 0xf5702fdb, 0x101fd28f, 0x54cb266b, 0xe50e1b4f, 0x9f4787c3, 0x529e7d00)
  {
    hide Schedule, Rounds, K;
    Constants48();
    var s := Rounds(start, block, 48);
    s := Go(block, start, 48, s, 0xfb3e89cb, 0x05757ceb, 0xbd714038);
    s := Go(block, start, 49, s, 0xcc7617db, 0xf11bfaa8, 0x6e5c390c);
    s := Go(block, start, 50, s, 0xb9e66c34, 0x7a0508a1, 0x52f1ccf7);
    s := Go(block, start, 51, s, 0xa9993667, 0x886e7a22, 0x49231c1e);
    s := Go(block, start, 52, s, 0x84badedd, 0x101fd28f, 0x529e7d00);
    s := Go(block, start, 53, s, 0xc21462bc, 0xf5702fdb, 0x9f4787c3);
    s := Go(block, start, 54, s, 0x1487472c, 0x3ec45cdb, 0xe50e1b4f);
    s := Go(block, start, 55, s, 0xb20f7a99, 0x38cc9913, 0x54cb266b);
  }

  lemma AbcRounds64(block: seq<byte>, start: State)
    requires |block| == 64
    requires SpellsRow(block, 14, ABC_14) && SpellsRow(block, 15, ABC_15)
    requires Rounds(start, block, 56)
      == State(0x38cc9913, 0x3ec45cdb, 0xf5702fdb, 0x101fd28f, 0x54cb266b, 0xe50e1b4f, 0x9f4787c3, 0x529e7d00)
    ensures Rounds(start, block, 64)
      == State(0x506e3058, 0xd39a2165, 0x04d24d6c, 0xb85e2ce9, 0x5ef50f24, 0xfb121210, 0x948d25b6, 0x961f4894)
  {
    hide Schedule, Rounds, K;
    Constants56();
    var s := Rounds(start, block, 56);
    s := Go(block, start, 56, s, 0xef57b9cd, 0xfcd1887b, 0x9b5e906c);
    s := Go(block, start, 57, s, 0xebe6b238, 0xc062d46f, 0x7e44008e);
    s := Go(block, start, 58, s, 0x9fe3095e, 0xffb70472, 0x6d83bfc6);
    s := Go(block, start, 59, s, 0x78bc8d4b, 0xb6ae8fff, 0xb21bad3d);
    s := Go(block, start, 60, s, 0xa43fcf15, 0xb85e2ce9, 0x961f4894);
    s := Go(block, start, 61, s, 0x668b2ff8, 0x04d24d6c, 0x948d25b6);
    s := Go(block, start, 62, s, 0xeeaba2cc, 0xd39a2165, 0xfb121210);
    s := Go(block, start, 63, s, 0x12b1edeb, 0x506e3058, 0x5ef50f24);
  }

  lemma AbcCompressed(block: seq<byte>, start: State)
    requires |block| == 64 && SpellsRow(block, 0, ABC_0) && SpellsRow(block, 1, ABC_1)
    requires SpellsRow(block, 2, ABC_2) && SpellsRow(block, 3, ABC_3)
    requires start == State(0x6a09e667, 0xbb67ae85, 0x3c6ef372, 0xa54ff53a, 0x510e527f, 0x9b05688c, 0x1f83d9ab, 0x5be0cd19)
    ensures Compress(start, block)
      == State(0xba7816bf, 0x8f01cfea, 0x414140de, 0x5dae2223, 0xb00361a3, 0x96177a9c, 0xb410ff61, 0xf20015ad)
  {
    hide SpellsRow, Rounds;
    AbcWords16(block);
    AbcWords32(block);
    AbcWords48(block);
    NoRounds(start, block);
    AbcRounds8(block, start);
    AbcRounds16(block, start);
    AbcRounds24(block, start);
    AbcRounds32(block, start);
    AbcRounds40(block, start);
    AbcRounds48(block, start);
    AbcRounds56(block, start);
    AbcRounds64(block, start);
  }

  const ABC: seq<byte> := [0x61, 0x62, 0x63]

  lemma AbcPadded()
    ensures Padded(ABC) == [0x61, 0x62, 0x63, 0x80] + Zeros(59) + [0x18]
  {
    hide BigEndian64, Zeros, ZeroCount, BitLength, ABC;
    AbcNumbers();
    AbcLength();
    var start := [0x61, 0x62, 0x63, 0x80];
    assert Padded(ABC) == (start + Zeros(52)) + (Zeros(7) + [0x18]);
    ZerosJoin(start, 52, 7, [0x18]);
  }

  lemma AbcNumbers()
    ensures |ABC| == 3 && ABC + [0x80] == [0x61, 0x62, 0x63, 0x80] && ZeroCount(3) == 52 && BitLength(3) == 24
  {
  }

  lemma AbcLength()
    ensures BigEndian64(24) == Zeros(7) + [0x18]
  {
    hide BigEndian64;
    ShortLength(24);
    assert Zeros(6) + [0] == Zeros(7);
  }

  lemma ZerosJoin(front: seq<byte>, m: nat, n: nat, back: seq<byte>)
    ensures (front + Zeros(m)) + (Zeros(n) + back) == front + Zeros(m + n) + back
  {
    assert Zeros(m) + Zeros(n) == Zeros(m + n);
    hide Zeros;
    assert (front + Zeros(m)) + (Zeros(n) + back) == front + (Zeros(m) + Zeros(n)) + back;
  }

  lemma AbcSpelled(block: seq<byte>)
    requires block == [0x61, 0x62, 0x63, 0x80] + Zeros(59) + [0x18]
    ensures |block| == 64 && SpellsRow(block, 0, ABC_0) && SpellsRow(block, 1, ABC_1)
    ensures SpellsRow(block, 2, ABC_2) && SpellsRow(block, 3, ABC_3)
  {
    hide Load8, Schedule;
    forall t | 1 <= t < 15
      ensures Schedule(block, t) == 0
    {
      ZeroWord(block, t);
    }
    BytesLoaded();
    LettersLoaded();
    assert block[0..4] == [0x61, 0x62, 0x63, 0x80] && block[60..64] == [0, 0, 0, 0x18];
    LoadsAt(block, 0, [0x61, 0x62, 0x63, 0x80], 0x61626380);
    LoadsAt(block, 15, [0, 0, 0, 0x18], 0x18);
  }

  /** The digest that is published for abc. */
  lemma AbcDigest()
    ensures Hash(ABC) ==
      [0xba, 0x78, 0x16, 0xbf, 0x8f, 0x01, 0xcf, 0xea, 0x41, 0x41, 0x40, 0xde, 0x5d, 0xae, 0x22, 0x23,
       0xb0, 0x03, 0x61, 0xa3, 0x96, 0x17, 0x7a, 0x9c, 0xb4, 0x10, 0xff, 0x61, 0xf2, 0x00, 0x15, 0xad]
  {
    hide Compress, SpellsRow, Padded;
    AbcPadded();
    var padded := Padded(ABC);
    assert padded[0..64] == padded && |padded| == 64;
    AbcSpelled(padded);
    AbcCompressed(padded, INITIAL);
    assert Fold(padded, 0) == INITIAL && Fold(padded, 1) == Compress(INITIAL, padded);
  }

  // ---- the two-block message: its first block ------------------------------------------------

  const FIRST_0 := Row(0x61626364, 0x62636465, 0x63646566, 0x64656667)
  const FIRST_1 := Row(0x65666768, 0x66676869, 0x6768696a, 0x68696a6b)
  const FIRST_2 := Row(0x696a6b6c, 0x6a6b6c6d, 0x6b6c6d6e, 0x6c6d6e6f)
  const FIRST_3 := Row(0x6d6e6f70, 0x6e6f7071, 0x80000000, 0x00000000)
  const FIRST_4 := Row(0xeb8012ad, 0xa7c3ae92, 0x76e93ba2, 0xba42e743)
  const FIRST_5 := Row(0x92a92204, 0xd847e75e, 0x9e160036, 0xb280a7cb)
  const FIRST_6 := Row(0xddeb1516, 0xf36586f4, 0x969cd048, 0xe959d99d)
  const FIRST_7 := Row(0x6accc0ec, 0xf54cb098, 0x2af1b2da, 0xee59c4c9)
  const FIRST_8 := Row(0xa835e16a, 0x1dff4429, 0xd6e15959, 0xc397cd6e)
  const FIRST_9 := Row(0x6f1801ca, 0x21574205, 0x35ff7a84, 0x9743ee78)
  const FIRST_10 := Row(0xe44183e7, 0x0d09f00d, 0x9c89af54, 0x042d5bef)
  const FIRST_11 := Row(0x71f134d0, 0x0f94f463, 0x7e49dc63, 0x6f65c997)
  const FIRST_12 := Row(0x0b706583, 0x179312ca, 0x503054e9, 0xba125c39)
  const FIRST_13 := Row(0x7e9392c9, 0xd5cbaa1e, 0x78e0585d, 0xf6e7611c)
  const FIRST_14 := Row(0x8ac830ce, 0x8b47a303, 0xfd6e627f, 0x8c6e2c6a)
  const FIRST_15 := Row(0x4001adf1, 0x1a3dd097, 0xa9df6f62, 0x6aa60a39)

  lemma FirstWords16(block: seq<byte>)
    requires |block| == 64
    requires SpellsRow(block, 0, FIRST_0) && SpellsRow(block, 1, FIRST_1)
    requires SpellsRow(block, 2, FIRST_2) && SpellsRow(block, 3, FIRST_3)
    ensures SpellsRow(block, 4, FIRST_4) && SpellsRow(block, 5, FIRST_5)
    ensures SpellsRow(block, 6, FIRST_6) && SpellsRow(block, 7, FIRST_7)
  {
    hide SpellsRow;
    RowSpelled(block, 4, FIRST_0, FIRST_1, FIRST_2, FIRST_3, FIRST_4);
    RowSpelled(block, 5, FIRST_1, FIRST_2, FIRST_3, FIRST_4, FIRST_5);
    RowSpelled(block, 6, FIRST_2, FIRST_3, FIRST_4, FIRST_5, FIRST_6);
    RowSpelled(block, 7, FIRST_3, FIRST_4, FIRST_5, FIRST_6, FIRST_7);
  }

  lemma FirstWords32(block: seq<byte>)
    requires |block| == 64
    requires SpellsRow(block, 4, FIRST_4) && SpellsRow(block, 5, FIRST_5)
    requires SpellsRow(block, 6, FIRST_6) && SpellsRow(block, 7, FIRST_7)
    ensures SpellsRow(block, 8, FIRST_8) && SpellsRow(block, 9, FIRST_9)
    ensures SpellsRow(block, 10, FIRST_10) && SpellsRow(block, 11, FIRST_11)
  {
    hide SpellsRow;
    RowSpelled(block, 8, FIRST_4, FIRST_5, FIRST_6, FIRST_7, FIRST_8);
    RowSpelled(block, 9, FIRST_5, FIRST_6, FIRST_7, FIRST_8, FIRST_9);
    RowSpelled(block, 10, FIRST_6, FIRST_7, FIRST_8, FIRST_9, FIRST_10);
    RowSpelled(block, 11, FIRST_7, FIRST_8, FIRST_9, FIRST_10, FIRST_11);
  }

  lemma FirstWords48(block: seq<byte>)
    requires |block| == 64
    requires SpellsRow(block, 8, FIRST_8) && SpellsRow(block, 9, FIRST_9)
    requires SpellsRow(block, 10, FIRST_10) && SpellsRow(block, 11, FIRST_11)
    ensures SpellsRow(block, 12, FIRST_12) && SpellsRow(block, 13, FIRST_13)
    ensures SpellsRow(block, 14, FIRST_14) && SpellsRow(block, 15, FIRST_15)
  {
    hide SpellsRow;
    RowSpelled(block, 12, FIRST_8, FIRST_9, FIRST_10, FIRST_11, FIRST_12);
    RowSpelled(block, 13, FIRST_9, FIRST_10, FIRST_11, FIRST_12, FIRST_13);
    RowSpelled(block, 14, FIRST_10, FIRST_11, FIRST_12, FIRST_13, FIRST_14);
    RowSpelled(block, 15, FIRST_11, FIRST_12, FIRST_13, FIRST_14, FIRST_15);
  }

  lemma FirstRounds8(block: seq<byte>, start: State)
    requires |block| == 64
    requires SpellsRow(block, 0, FIRST_0) && SpellsRow(block, 1, FIRST_1)
    requires Rounds(start, block, 0)
      == State(0x6a09e667, 0xbb67ae85, 0x3c6ef372, 0xa54ff53a, 0x510e527f, 0x9b05688c, 0x1f83d9ab, 0x5be0cd19)
    ensures Rounds(start, block, 8)
      == State(0xd237e6db, 0x485835b7, 0x55c8ef48, 0xf921c212, 0xa401d211, 0x39a5b2ca, 0x7ff91c94, 0x05c4f88a)
  {
    hide Schedule, Rounds, K;
    Constants0();
    var s := Rounds(start, block, 0);
    s := Go(block, start, 0, s, 0x61626364, 0x5d6aebb1, 0xfa2a4606);
    s := Go(block, start, 1, s, 0x62636465, 0x2f2d5fcf, 0x4eb1cfce);
    s := Go(block, start, 2, s, 0x63646566, 0x97651825, 0x62d5c49e);
    s := Go(block, start, 3, s, 0x64656667, 0x4a8d64d5, 0x6494841b);
    s := Go(block, start, 4, s, 0x65666768, 0xf921c212, 0x05c4f88a);
    s := Go(block, start, 5, s, 0x66676869, 0x55c8ef48, 0x7ff91c94);
    s := Go(block, start, 6, s, 0x6768696a, 0x485835b7, 0x39a5b2ca);
    s := Go(block, start, 7, s, 0x68696a6b, 0xd237e6db, 0xa401d211);
  }

  lemma FirstRounds16(block: seq<byte>, start: State)
    requires |block| == 64
    requires SpellsRow(block, 2, FIRST_2) && SpellsRow(block, 3, FIRST_3)
    requires Rounds(start, block, 8)
      == State(0xd237e6db, 0x485835b7, 0x55c8ef48, 0xf921c212, 0xa401d211, 0x39a5b2ca, 0x7ff91c94, 0x05c4f88a)
    ensures Rounds(start, block, 16)
      == State(0xc3486194, 0xdd16cbb3, 0xd68e6457, 0x101a4861, 0x1496a54f, 0x9162aded, 0x9243f8af, 0x839a0fc9)
  {
    hide Schedule, Rounds, K;
    Constants8();
    var s := Rounds(start, block, 8);
    s := Go(block, start, 8, s, 0x696a6b6c, 0x359f2bce, 0xc09ffec4);
    s := Go(block, start, 9, s, 0x6a6b6c6d, 0x3a474b2b, 0x9037b3b8);
    s := Go(block, start, 10, s, 0x6b6c6d6e, 0xb8e2b4cb, 0x443ed29e);
    s := Go(block, start, 11, s, 0x6c6d6e6f, 0x1762215c, 0xee1c97a8);
    s := Go(block, start, 12, s, 0x6d6e6f70, 0x101a4861, 0x839a0fc9);
    s := Go(block, start, 13, s, 0x6e6f7071, 0xd68e6457, 0x9243f8af);
    s := Go(block, start, 14, s, 0x80000000, 0xdd16cbb3, 0x9162aded);
    s := Go(block, start, 15, s, 0x00000000, 0xc3486194, 0x1496a54f);
  }

  lemma FirstRounds24(block: seq<byte>, start: State)
    requires |block| == 64
    requires SpellsRow(block, 4, FIRST_4) && SpellsRow(block, 5, FIRST_5)
    requires Rounds(start, block, 16)
      == State(0xc3486194, 0xdd16cbb3, 0xd68e6457, 0x101a4861, 0x1496a54f, 0x9162aded, 0x9243f8af, 0x839a0fc9)
    ensures Rounds(start, block, 24)
      == State(0x59fce6b9, 0xae2e2d4f, 0x1b2b66b8, 0xd70ac17d, 0xa2c7d51d, 0xf074fc95, 0xd560b028, 0x7cc6b262)
  {
    hide Schedule, Rounds, K;
    Constants16();
    var s := Rounds(start, block, 16);
    s := Go(block, start, 16, s, 0xeb8012ad, 0xb9dcacb1, 0xd4f64250);
    s := Go(block, start, 17, s, 0xa7c3ae92, 0x046a193e, 0x885370b6);
    s := Go(block, start, 18, s, 0x76e93ba2, 0xf402f058, 0x6f433549);
    s := Go(block, start, 19, s, 0xba42e743, 0x2139187b, 0x7c304206);
    s := Go(block, start, 20, s, 0x92a92204, 0xd70ac17d, 0x7cc6b262);
    s := Go(block, start, 21, s, 0xd847e75e, 0x1b2b66b8, 0xd560b028);
    s := Go(block, start, 22, s, 0x9e160036, 0xae2e2d4f, 0xf074fc95);
    s := Go(block, start, 23, s, 0xb280a7cb, 0x59fce6b9, 0xa2c7d51d);
  }

  lemma FirstRounds32(block: seq<byte>, start: State)
    requires |block| == 64
    requires SpellsRow(block, 6, FIRST_6) && SpellsRow(block, 7, FIRST_7)
    requires Rounds(start, block, 24)
      == State(0x59fce6b9, 0xae2e2d4f, 0x1b2b66b8, 0xd70ac17d, 0xa2c7d51d, 0xf074fc95, 0xd560b028, 0x7cc6b262)
    ensures Rounds(start, block, 32)
      == State(0x5581ab07, 0xeb43f3ed, 0xdf7151a0, 0x74bcf468, 0xdf980085, 0x0635d880, 0x7629c961, 0x72abaecd)
  {
    hide Schedule, Rounds, K;
    Constants24();
    var s := Rounds(start, block, 24);
    s := Go(block, start, 24, s, 0xddeb1516, 0x4a885065, 0x763597fb);
    s := Go(block, start, 25, s, 0xf36586f4, 0x573221da, 0x36e74eb4);
    s := Go(block, start, 26, s, 0x969cd048, 0x128661da, 0x1162d575);
    s := Go(block, start, 27, s, 0xe959d99d, 0x73f858af, 0xe77c797f);
    s := Go(block, start, 28, s, 0x6accc0ec, 0x74bcf468, 0x72abaecd);
    s := Go(block, start, 29, s, 0xf54cb098, 0xdf7151a0, 0x7629c961);
    s := Go(block, start, 30, s, 0x2af1b2da, 0xeb43f3ed, 0x0635d880);
    s := Go(block, start, 31, s, 0xee59c4c9, 0x5581ab07, 0xdf980085);
  }

  lemma FirstRounds40(block: seq<byte>, start: State)
    requires |block| == 64
    requires SpellsRow(block, 8, FIRST_8) && SpellsRow(block, 9, FIRST_9)
    requires Rounds(start, block, 32)
      == State(0x5581ab07, 0xeb43f3ed, 0xdf7151a0, 0x74bcf468, 0xdf980085, 0x0635d880, 0x7629c961, 0x72abaecd)
    ensures Rounds(start, block, 40)
      == State(0x7e4d30b8, 0x91ac9d5d, 0xa985b4be, 0x2c55d3a6, 0x9f5b9b6d, 0x68d8d590, 0xf72bf353, 0xb067c1af)
  {
    hide Schedule, Rounds, K;
    Constants32();
    var s := Rounds(start, block, 32);
    s := Go(block, start, 32, s, 0xa835e16a, 0x9fc905c8, 0xa94d2af1);
    s := Go(block, start, 33, s, 0x1dff4429, 0x9ce5a62f, 0x6ef3b6bd);
    s := Go(block, start, 34, s, 0xd6e15959, 0x1df8e885, 0x2a9e048e);
    s := Go(block, start, 35, s, 0xc397cd6e, 0x0786dce8, 0xde2a21d1);
    s := Go(block, start, 36, s, 0x6f1801ca, 0x2c55d3a6, 0xb067c1af);
    s := Go(block, start, 37, s, 0x21574205, 0xa985b4be, 0xf72bf353);
    s := Go(block, start, 38, s, 0x35ff7a84, 0x91ac9d5d, 0x68d8d590);
    s := Go(block, start, 39, s, 0x9743ee78, 0x7e4d30b8, 0x9f5b9b6d);
  }

  lemma FirstRounds48(block: seq<byte>, start: State)
    requires |block| == 64
    requires SpellsRow(block, 10, FIRST_10) && SpellsRow(block, 11, FIRST_11)
    requires Rounds(start, block, 40)
      == State(0x7e4d30b8, 0x91ac9d5d, 0xa985b4be, 0x2c55d3a6, 0x9f5b9b6d, 0x68d8d590, 0xf72bf353, 0xb067c1af)
    ensures Rounds(start, block, 48)
      == State(0x13d82741, 0x165be9cd, 0x18f0d19d, 0xde71e2f2, 0xa7802a4d, 0xa483f080, 0x6b88472c, 0xff61c636)
  {
    hide Schedule, Rounds, K;
    Constants40();
    var s := Rounds(start, block, 40);
    s := Go(block, start, 40, s, 0xe44183e7, 0x7e056794, 0x423b26c0);
    s := Go(block, start, 41, s, 0x0d09f00d, 0x508a16ab, 0x45459d97);
    s := Go(block, start, 42, s, 0x9c89af54, 0xb62c7013, 0x80a92a00);
    s := Go(block, start, 43, s, 0x042d5bef, 0x167361de, 0x41dd3844);
    s := Go(block, start, 44, s, 0x71f134d0, 0xde71e2f2, 0xff61c636);
    s := Go(block, start, 45, s, 0x0f94f463, 0x18f0d19d, 0x6b88472c);
    s := Go(block, start, 46, s, 0x7e49dc63, 0x165be9cd, 0xa483f080);
    s := Go(block, start, 47, s, 0x6f65c997, 0x13d82741, 0xa7802a4d);
  }

  lemma FirstRounds56(block: seq<byte>, start: State)
    requires |block| == 64
    requires SpellsRow(block, 12, FIRST_12) && SpellsRow(block, 13, FIRST_13)
    requires Rounds(start, block, 48)
      == State(0x13d82741, 0x165be9cd, 0x18f0d19d, 0xde71e2f2, 0xa7802a4d, 0xa483f080, 0x6b88472c, 0xff61c636)
    ensures Rounds(start, block, 56)
      == State(0x9e57c4a0, 0xf907b313, 0x1d6de87a, 0xb8d55619, 0xeec13548, 0x61a41711, 0x3443bed4, 0x1c806a61)
  {
    hide Schedule, Rounds, K;
    Constants48();
    var s := Rounds(start, block, 48);
    s := Go(block, start, 48, s, 0x0b706583, 0x017b9d99, 0xaeb10b60);
    s := Go(block, start, 49, s, 0x179312ca, 0x543c99a1, 0x16f134b6);
    s := Go(block, start, 50, s, 0x503054e9, 0x758ca97a, 0x100cf2ea);
    s := Go(block, start, 51, s, 0xba125c39, 0x81c1cde0, 0x5c47eb7b);
    s := Go(block, start, 52, s, 0x7e9392c9, 0xb8d55619, 0x1c806a61);
    s := Go(block, start, 53, s, 0xd5cbaa1e, 0x1d6de87a, 0x3443bed4);
    s := Go(block, start, 54, s, 0x78e0585d, 0xf907b313, 0x61a41711);
    s := Go(block, start, 55, s, 0xf6e7611c, 0x9e57c4a0, 0xeec13548);
  }

  lemma FirstRounds64(block: seq<byte>, start: State)
    requires |block| == 64
    requires SpellsRow(block, 14, FIRST_14) && SpellsRow(block, 15, FIRST_15)
    requires Rounds(start, block, 56)
      == State(0x9e57c4a0, 0xf907b313, 0x1d6de87a, 0xb8d55619, 0xeec13548, 0x61a41711, 0x3443bed4, 0x1c806a61)
    ensures Rounds(start, block, 64)
      == State(0x1bdc6f6f, 0x86126910, 0xf6f443f8, 0xbcfce922, 0x25d2430a, 0x2fc08f85, 0xacc75916, 0x962d8621)
  {
    hide Schedule, Rounds, K;
    Constants56();
    var s := Rounds(start, block, 56);
    s := Go(block, start, 56, s, 0x8ac830ce, 0x71629856, 0x2f6c8c4e);
    s := Go(block, start, 57, s, 0x8b47a303, 0x7c015a2c, 0xcb9d3dd0);
    s := Go(block, start, 58, s, 0xfd6e627f, 0x921fccb6, 0x43d8a034);
    s := Go(block, start, 59, s, 0x8c6e2c6a, 0xe18f259a, 0x51e15869);
    s := Go(block, start, 60, s, 0x4001adf1, 0xbcfce922, 0x962d8621);
    s := Go(block, start, 61, s, 0x1a3dd097, 0xf6f443f8, 0xacc75916);
    s := Go(block, start, 62, s, 0xa9df6f62, 0x86126910, 0x2fc08f85);
    s := Go(block, start, 63, s, 0x6aa60a39, 0x1bdc6f6f, 0x25d2430a);
  }

  lemma FirstCompressed(block: seq<byte>, start: State)
    requires |block| == 64 && SpellsRow(block, 0, FIRST_0) && SpellsRow(block, 1, FIRST_1)
    requires SpellsRow(block, 2, FIRST_2) && SpellsRow(block, 3, FIRST_3)
    requires start == State(0x6a09e667, 0xbb67ae85, 0x3c6ef372, 0xa54ff53a, 0x510e527f, 0x9b05688c, 0x1f83d9ab, 0x5be0cd19)
    ensures Compress(start, block)
      == State(0x85e655d6, 0x417a1795, 0x3363376a, 0x624cde5c, 0x76e09589, 0xcac5f811, 0xcc4b32c1, 0xf20e533a)
  {
    hide SpellsRow, Rounds;
    FirstWords16(block);
    FirstWords32(block);
    FirstWords48(block);
    NoRounds(start, block);
    FirstRounds8(block, start);
    FirstRounds16(block, start);
    FirstRounds24(block, start);
    FirstRounds32(block, start);
    FirstRounds40(block, start);
    FirstRounds48(block, start);
    FirstRounds56(block, start);
    FirstRounds64(block, start);
  }

  // ---- its second block ----------------------------------------------------------------------

  const SECOND_0 := Row(0x00000000, 0x00000000, 0x00000000, 0x00000000)
  const SECOND_1 := Row(0x00000000, 0x00000000, 0x00000000, 0x00000000)
  const SECOND_2 := Row(0x00000000, 0x00000000, 0x00000000, 0x00000000)
  const SECOND_3 := Row(0x00000000, 0x00000000, 0x00000000, 0x000001c0)
  const SECOND_4 := Row(0x00000000, 0x00d80000, 0x00000000, 0x00003677)
  const SECOND_5 := Row(0x00000000, 0x1df5600d, 0x000001c0, 0x1c00501c)
  const SECOND_6 := Row(0x01b00000, 0x220a8d94, 0x0000a365, 0x177017e7)
  const SECOND_7 := Row(0x63d38035, 0x090ab713, 0x4c7539ca, 0x0f19a8c9)
  const SECOND_8 := Row(0x5df4b0c4, 0xe257036a, 0xc97bb6f1, 0xc5b46f4d)
  const SECOND_9 := Row(0xf8253c4e, 0xa558d189, 0x78696285, 0xed07117f)
  const SECOND_10 := Row(0x107358f6, 0x390ae496, 0x565010a2, 0xc51d7d44)
  const SECOND_11 := Row(0x9e74c972, 0x6614b561, 0x30fc129d, 0x9ac684a8)
  const SECOND_12 := Row(0x2b658dbd, 0xe290f793, 0x9eebb24c, 0x9713b5de)
  const SECOND_13 := Row(0x41061ab7, 0xe022e23b, 0x0772079e, 0x7de22d9c)
  const SECOND_14 := Row(0xc8b83778, 0x75a79849, 0xd93dbddb, 0x0a036c9d)
  const SECOND_15 := Row(0xcb4f6ac6, 0x823f97e2, 0xea2f2a7a, 0xb9018b52)

  lemma SecondWords16(block: seq<byte>)
    requires |block| == 64
    requires SpellsRow(block, 0, SECOND_0) && SpellsRow(block, 1, SECOND_1)
    requires SpellsRow(block, 2, SECOND_2) && SpellsRow(block, 3, SECOND_3)
    ensures SpellsRow(block, 4, SECOND_4) && SpellsRow(block, 5, SECOND_5)
    ensures SpellsRow(block, 6, SECOND_6) && SpellsRow(block, 7, SECOND_7)
  {
    hide SpellsRow;
    RowSpelled(block, 4, SECOND_0, SECOND_1, SECOND_2, SECOND_3, SECOND_4);
    RowSpelled(block, 5, SECOND_1, SECOND_2, SECOND_3, SECOND_4, SECOND_5);
    RowSpelled(block, 6, SECOND_2, SECOND_3, SECOND_4, SECOND_5, SECOND_6);
    RowSpelled(block, 7, SECOND_3, SECOND_4, SECOND_5, SECOND_6, SECOND_7);
  }

  lemma SecondWords32(block: seq<byte>)
    requires |block| == 64
    requires SpellsRow(block, 4, SECOND_4) && SpellsRow(block, 5, SECOND_5)
    requires SpellsRow(block, 6, SECOND_6) && SpellsRow(block, 7, SECOND_7)
    ensures SpellsRow(block, 8, SECOND_8) && SpellsRow(block, 9, SECOND_9)
    ensures SpellsRow(block, 10, SECOND_10) && SpellsRow(block, 11, SECOND_11)
  {
    hide SpellsRow;
    RowSpelled(block, 8, SECOND_4, SECOND_5, SECOND_6, SECOND_7, SECOND_8);
    RowSpelled(block, 9, SECOND_5, SECOND_6, SECOND_7, SECOND_8, SECOND_9);
    RowSpelled(block, 10, SECOND_6, SECOND_7, SECOND_8, SECOND_9, SECOND_10);
    RowSpelled(block, 11, SECOND_7, SECOND_8, SECOND_9, SECOND_10, SECOND_11);
  }

  lemma SecondWords48(block: seq<byte>)
    requires |block| == 64
    requires SpellsRow(block, 8, SECOND_8) && SpellsRow(block, 9, SECOND_9)
    requires SpellsRow(block, 10, SECOND_10) && SpellsRow(block, 11, SECOND_11)
    ensures SpellsRow(block, 12, SECOND_12) && SpellsRow(block, 13, SECOND_13)
    ensures SpellsRow(block, 14, SECOND_14) && SpellsRow(block, 15, SECOND_15)
  {
    hide SpellsRow;
    RowSpelled(block, 12, SECOND_8, SECOND_9, SECOND_10, SECOND_11, SECOND_12);
    RowSpelled(block, 13, SECOND_9, SECOND_10, SECOND_11, SECOND_12, SECOND_13);
    RowSpelled(block, 14, SECOND_10, SECOND_11, SECOND_12, SECOND_13, SECOND_14);
    RowSpelled(block, 15, SECOND_11, SECOND_12, SECOND_13, SECOND_14, SECOND_15);
  }

  lemma SecondRounds8(block: seq<byte>, start: State)
    requires |block| == 64
    requires SpellsRow(block, 0, SECOND_0) && SpellsRow(block, 1, SECOND_1)
    requires Rounds(start, block, 0)
      == State(0x85e655d6, 0x417a1795, 0x3363376a, 0x624cde5c, 0x76e09589, 0xcac5f811, 0xcc4b32c1, 0xf20e533a)
    ensures Rounds(start, block, 8)
      == State(0xbf9a93a0, 0x89bba3f1, 0x3eeb6c06, 0x185a5d79, 0x059abdd1, 0x0a34df03, 0xfe20cda6, 0x8dff3001)
  {
    hide Schedule, Rounds, K;
    Constants0();
    var s := Rounds(start, block, 0);
    s := Go(block, start, 0, s, 0x00000000, 0x7c20c838, 0x4670ae6e);
    s := Go(block, start, 1, s, 0x00000000, 0x7c3c0f86, 0x8c51be64);
    s := Go(block, start, 2, s, 0x00000000, 0xfd1eebdc, 0xaf71b9ea);
    s := Go(block, start, 3, s, 0x00000000, 0xf268faa9, 0xe20362ef);
    s := Go(block, start, 4, s, 0x00000000, 0x185a5d79, 0x8dff3001);
    s := Go(block, start, 5, s, 0x00000000, 0x3eeb6c06, 0xfe20cda6);
    s := Go(block, start, 6, s, 0x00000000, 0x89bba3f1, 0x0a34df03);
    s := Go(block, start, 7, s, 0x00000000, 0xbf9a93a0, 0x059abdd1);
  }

  lemma SecondRounds16(block: seq<byte>, start: State)
    requires |block| == 64
    requires SpellsRow(block, 2, SECOND_2) && SpellsRow(block, 3, SECOND_3)
    requires Rounds(start, block, 8)
      == State(0xbf9a93a0, 0x89bba3f1, 0x3eeb6c06, 0x185a5d79, 0x059abdd1, 0x0a34df03, 0xfe20cda6, 0x8dff3001)
    ensures Rounds(start, block, 16)
      == State(0x16a8cc79, 0x0cea5cbc, 0xd74080fa, 0x35ee996d, 0x0fcb1f6f, 0x60356548, 0x68aa893f, 0x5c24e2a2)
  {
    hide Schedule, Rounds, K;
    Constants8();
    var s := Rounds(start, block, 8);
    s := Go(block, start, 8, s, 0x00000000, 0x2c096744, 0xabfa465b);
    s := Go(block, start, 9, s, 0x00000000, 0x2d964e86, 0xaa27ed82);
    s := Go(block, start, 10, s, 0x00000000, 0x5b35025b, 0x10e77723);
    s := Go(block, start, 11, s, 0x00000000, 0x5eb4ec40, 0xe11b4548);
    s := Go(block, start, 12, s, 0x00000000, 0x35ee996d, 0x5c24e2a2);
    s := Go(block, start, 13, s, 0x00000000, 0xd74080fa, 0x68aa893f);
    s := Go(block, start, 14, s, 0x00000000, 0x0cea5cbc, 0x60356548);
    s := Go(block, start, 15, s, 0x000001c0, 0x16a8cc79, 0x0fcb1f6f);
  }

  lemma SecondRounds24(block: seq<byte>, start: State)
    requires |block| == 64
    requires SpellsRow(block, 4, SECOND_4) && SpellsRow(block, 5, SECOND_5)
    requires Rounds(start, block, 16)
      == State(0x16a8cc79, 0x0cea5cbc, 0xd74080fa, 0x35ee996d, 0x0fcb1f6f, 0x60356548, 0x68aa893f, 0x5c24e2a2)
    ensures Rounds(start, block, 24)
      == State(0xa4195b91, 0xf13ae55b, 0xd44dc81a, 0x20aad899, 0xeddbd6ed, 0x966aa287, 0x5bace62d, 0xcc4769f2)
  {
    hide Schedule, Rounds, K;
    Constants16();
    var s := Rounds(start, block, 16);
    s := Go(block, start, 16, s, 0x00000000, 0xf16f634e, 0x8b21cdc1);
    s := Go(block, start, 17, s, 0x00d80000, 0x23dcb6c2, 0xca9182d3);
    s := Go(block, start, 18, s, 0x00000000, 0xdcff40fd, 0x69bf7b95);
    s := Go(block, start, 19, s, 0x00003677, 0x76f1a2bc, 0x0dc84bb1);
    s := Go(block, start, 20, s, 0x00000000, 0x20aad899, 0xcc4769f2);
    s := Go(block, start, 21, s, 0x1df5600d, 0xd44dc81a, 0x5bace62d);
    s := Go(block, start, 22, s, 0x000001c0, 0xf13ae55b, 0x966aa287);
    s := Go(block, start, 23, s, 0x1c00501c, 0xa4195b91, 0xeddbd6ed);
  }

  lemma SecondRounds32(block: seq<byte>, start: State)
    requires |block| == 64
    requires SpellsRow(block, 6, SECOND_6) && SpellsRow(block, 7, SECOND_7)
    requires Rounds(start, block, 24)
      == State(0xa4195b91, 0xf13ae55b, 0xd44dc81a, 0x20aad899, 0xeddbd6ed, 0x966aa287, 0x5bace62d, 0xcc4769f2)
    ensures Rounds(start, block, 32)
      == State(0xb0eab1c5, 0x02ef3a5f, 0x1cfa5eb0, 0xd958b529, 0xf6d93952, 0x5da10665, 0x6c49db9f, 0xc2fa99b1)
  {
    hide Schedule, Rounds, K;
    Constants24();
    var s := Rounds(start, block, 24);
    s := Go(block, start, 24, s, 0x01b00000, 0x4984fa79, 0xa530d939);
    s := Go(block, start, 25, s, 0x220a8d94, 0xaa6cb982, 0x0b5eeea4);
    s := Go(block, start, 26, s, 0x0000a365, 0x9450fbbc, 0x09166dda);
    s := Go(block, start, 27, s, 0x177017e7, 0x0d936bab, 0x6e495d4b);
    s := Go(block, start, 28, s, 0x63d38035, 0xd958b529, 0xc2fa99b1);
    s := Go(block, start, 29, s, 0x090ab713, 0x1cfa5eb0, 0x6c49db9f);
    s := Go(block, start, 30, s, 0x4c7539ca, 0x02ef3a5f, 0x5da10665);
    s := Go(block, start, 31, s, 0x0f19a8c9, 0xb0eab1c5, 0xf6d93952);
  }

  lemma SecondRounds40(block: seq<byte>, start: State)
    requires |block| == 64
    requires SpellsRow(block, 8, SECOND_8) && SpellsRow(block, 9, SECOND_9)
    requires Rounds(start, block, 32)
      == State(0xb0eab1c5, 0x02ef3a5f, 0x1cfa5eb0, 0xd958b529, 0xf6d93952, 0x5da10665, 0x6c49db9f, 0xc2fa99b1)
    ensures Rounds(start, block, 40)
      == State(0x221b8a5a, 0xadca7a96, 0xd949682b, 0x2f11c939, 0x0b82c5eb, 0xc6cce4ff, 0x32d99008, 0xfed4ce1d)
  {
    hide Schedule, Rounds, K;
    Constants32();
    var s := Rounds(start, block, 32);
    s := Go(block, start, 32, s, 0x5df4b0c4, 0x0bfba73c, 0x8b99e3a9);
    s := Go(block, start, 33, s, 0xe257036a, 0x4bd1df96, 0x905e44ac);
    s := Go(block, start, 34, s, 0xc97bb6f1, 0x9907f1b6, 0x66c3043d);
    s := Go(block, start, 35, s, 0xc5b46f4d, 0xecde4e0d, 0x5dc119e6);
    s := Go(block, start, 36, s, 0xf8253c4e, 0x2f11c939, 0xfed4ce1d);
    s := Go(block, start, 37, s, 0xa558d189, 0xd949682b, 0x32d99008);
    s := Go(block, start, 38, s, 0x78696285, 0xadca7a96, 0xc6cce4ff);
    s := Go(block, start, 39, s, 0xed07117f, 0x221b8a5a, 0x0b82c5eb);
  }

  lemma SecondRounds48(block: seq<byte>, start: State)
    requires |block| == 64
    requires SpellsRow(block, 10, SECOND_10) && SpellsRow(block, 11, SECOND_11)
    requires Rounds(start, block, 40)
      == State(0x221b8a5a, 0xadca7a96, 0xd949682b, 0x2f11c939, 0x0b82c5eb, 0xc6cce4ff, 0x32d99008, 0xfed4ce1d)
    ensures Rounds(start, block, 48)
      == State(0xd7354d5b, 0x0b3303a7, 0x104a7db4, 0x0f154e11, 0xaad55b6b, 0xbbe1c39a, 0x5348e8f6, 0x6f9517cb)
  {
    hide Schedule, Rounds, K;
    Constants40();
    var s := Rounds(start, block, 40);
    s := Go(block, start, 40, s, 0x107358f6, 0x12d97845, 0xe4213ca2);
    s := Go(block, start, 41, s, 0x390ae496, 0x2c794876, 0xff6759ba);
    s := Go(block, start, 42, s, 0x565010a2, 0x8300fca2, 0xe0e3457c);
    s := Go(block, start, 43, s, 0xc51d7d44, 0xf2ad6322, 0xcc48c7f3);
    s := Go(block, start, 44, s, 0x9e74c972, 0x0f154e11, 0x6f9517cb);
    s := Go(block, start, 45, s, 0x6614b561, 0x104a7db4, 0x5348e8f6);
    s := Go(block, start, 46, s, 0x30fc129d, 0x0b3303a7, 0xbbe1c39a);
    s := Go(block, start, 47, s, 0x9ac684a8, 0xd7354d5b, 0xaad55b6b);
  }

  lemma SecondRounds56(block: seq<byte>, start: State)
    requires |block| == 64
    requires SpellsRow(block, 12, SECOND_12) && SpellsRow(block, 13, SECOND_13)
    requires Rounds(start, block, 48)
      == State(0xd7354d5b, 0x0b3303a7, 0x104a7db4, 0x0f154e11, 0xaad55b6b, 0xbbe1c39a, 0x5348e8f6, 0x6f9517cb)
    ensures Rounds(start, block, 56)
      == State(0x92952710, 0xd9f0c115, 0xec02560a, 0x4eca6fa0, 0x226806d6, 0x624150c4, 0x7151df8e, 0x989ed071)
  {
    hide Schedule, Rounds, K;
    Constants48();
    var s := Rounds(start, block, 48);
    s := Go(block, start, 48, s, 0x2b658dbd, 0xb736d7a6, 0x68f25260);
    s := Go(block, start, 49, s, 0xe290f793, 0x2748e5ec, 0xd4b58576);
    s := Go(block, start, 50, s, 0x9eebb24c, 0xd8aabcf9, 0x27844711);
    s := Go(block, start, 51, s, 0x9713b5de, 0x1a6bcf6a, 0xff5e99d0);
    s := Go(block, start, 52, s, 0x41061ab7, 0x4eca6fa0, 0x989ed071);
    s := Go(block, start, 53, s, 0xe022e23b, 0xec02560a, 0x7151df8e);
    s := Go(block, start, 54, s, 0x0772079e, 0xd9f0c115, 0x624150c4);
    s := Go(block, start, 55, s, 0x7de22d9c, 0x92952710, 0x226806d6);
  }

  lemma SecondRounds64(block: seq<byte>, start: State)
    requires |block| == 64
    requires SpellsRow(block, 14, SECOND_14) && SpellsRow(block, 15, SECOND_15)
    requires Rounds(start, block, 56)
      == State(0x92952710, 0xd9f0c115, 0xec02560a, 0x4eca6fa0, 0x226806d6, 0x624150c4, 0x7151df8e, 0x989ed071)
    ensures Rounds(start, block, 64)
      == State(0x9ea7148b, 0x908c2123, 0xb25cef29, 0xa9f181dd, 0x2c5c4ed0, 0x9a392956, 0x2aa1bb13, 0x27ccb387)
  {
    hide Schedule, Rounds, K;
    Constants56();
    var s := Rounds(start, block, 56);
    s := Go(block, start, 56, s, 0xc8b83778, 0x20d4d0e4, 0x4e515a4d);
    s := Go(block, start, 57, s, 0x75a79849, 0x4348eb1f, 0xc21eddf9);
    s := Go(block, start, 58, s, 0xd93dbddb, 0x286fe5f0, 0x54076664);
    s := Go(block, start, 59, s, 0x0a036c9d, 0x1c4cddd9, 0xf487a853);
    s := Go(block, start, 60, s, 0xcb4f6ac6, 0xa9f181dd, 0x27ccb387);
    s := Go(block, start, 61, s, 0x823f97e2, 0xb25cef29, 0x2aa1bb13);
    s := Go(block, start, 62, s, 0xea2f2a7a, 0x908c2123, 0x9a392956);
    s := Go(block, start, 63, s, 0xb9018b52, 0x9ea7148b, 0x2c5c4ed0);
  }

  lemma SecondCompressed(block: seq<byte>, start: State)
    requires |block| == 64 && SpellsRow(block, 0, SECOND_0) && SpellsRow(block, 1, SECOND_1)
    requires SpellsRow(block, 2, SECOND_2) && SpellsRow(block, 3, SECOND_3)
    requires start == State(0x85e655d6, 0x417a1795, 0x3363376a, 0x624cde5c, 0x76e09589, 0xcac5f811, 0xcc4b32c1, 0xf20e533a)
    ensures Compress(start, block)
      == State(0x248d6a61, 0xd20638b8, 0xe5c02693, 0x0c3e6039, 0xa33ce459, 0x64ff2167, 0xf6ecedd4, 0x19db06c1)
  {
    hide SpellsRow, Rounds;
    SecondWords16(block);
    SecondWords32(block);
    SecondWords48(block);
    NoRounds(start, block);
    SecondRounds8(block, start);
    SecondRounds16(block, start);
    SecondRounds24(block, start);
    SecondRounds32(block, start);
    SecondRounds40(block, start);
    SecondRounds48(block, start);
    SecondRounds56(block, start);
    SecondRounds64(block, start);
  }

  // ---- the two-block message -----------------------------------------------------------------

  /** The letters abcd, bcde, and so on up to nopq: 56 bytes, which leave no room for the length in their block. */
  const LETTERS: seq<byte> := seq(56, i requires 0 <= i < 56 => 0x61 + i / 4 + i % 4)

  lemma LettersPadded()
    ensures Padded(LETTERS) == LETTERS + [0x80] + Zeros(69) + [1, 0xc0]
  {
    ShortLength(448);
    hide BigEndian64, LETTERS;
    assert |LETTERS| == 56 by { LettersSized(); }
    assert ZeroCount(56) == 63 && BitLength(56) == 448;
    assert Zeros(63) + (Zeros(6) + [1, 0xc0]) == Zeros(69) + [1, 0xc0];
  }

  lemma LettersSized()
    ensures |LETTERS| == 56
  {
  }

  lemma LettersAt(block: seq<byte>, t: nat, a: byte)
    requires |block| == 64 && block[..56] == LETTERS && t < 14 && a == 0x61 + t
    ensures block[4 * t..4 * t + 4] == [a, a + 1, a + 2, a + 3]
  {
    forall j | 4 * t <= j < 4 * t + 4
      ensures block[j] == a + (j - 4 * t)
    {
      assert block[j] == block[..56][j] == LETTERS[j];
    }
  }

  lemma LetterWord(block: seq<byte>, t: nat, a: byte, v: Word)
    requires |block| == 64 && block[..56] == LETTERS && t < 14 && a == 0x61 + t
    requires LoadBigEndian([a, a + 1, a + 2, a + 3]) == v
    ensures Schedule(block, t) == v
  {
    hide LETTERS, LoadBigEndian;
    LettersAt(block, t, a);
    LoadsAt(block, t, [a, a + 1, a + 2, a + 3], v);
  }

  lemma LettersSpelled(block: seq<byte>)
    requires |block| == 64 && block[..56] == LETTERS
    ensures SpellsRow(block, 0, FIRST_0) && SpellsRow(block, 1, FIRST_1) && SpellsRow(block, 2, FIRST_2)
    ensures Schedule(block, 12) == FIRST_3.w0 && Schedule(block, 13) == FIRST_3.w1
  {
    LettersLoaded();
    hide Schedule, LETTERS, Load8;
    LetterWord(block, 0, 0x61, 0x61626364);
    LetterWord(block, 1, 0x62, 0x62636465);
    LetterWord(block, 2, 0x63, 0x63646566);
    LetterWord(block, 3, 0x64, 0x64656667);
    LetterWord(block, 4, 0x65, 0x65666768);
    LetterWord(block, 5, 0x66, 0x66676869);
    LetterWord(block, 6, 0x67, 0x6768696a);
    LetterWord(block, 7, 0x68, 0x68696a6b);
    LetterWord(block, 8, 0x69, 0x696a6b6c);
    LetterWord(block, 9, 0x6a, 0x6a6b6c6d);
    LetterWord(block, 10, 0x6b, 0x6b6c6d6e);
    LetterWord(block, 11, 0x6c, 0x6c6d6e6f);
    LetterWord(block, 12, 0x6d, 0x6d6e6f70);
    LetterWord(block, 13, 0x6e, 0x6e6f7071);
  }

  lemma FirstSpelled(block: seq<byte>)
    requires block == LETTERS + [0x80] + Zeros(7)
    ensures |block| == 64 && SpellsRow(block, 0, FIRST_0) && SpellsRow(block, 1, FIRST_1)
    ensures SpellsRow(block, 2, FIRST_2) && SpellsRow(block, 3, FIRST_3)
  {
    hide Schedule, LETTERS, Load8;
    LettersSized();
    assert block[..56] == LETTERS;
    LettersSpelled(block);
    BytesLoaded();
    ZerosLoaded();
    assert block[56..60] == [0x80, 0, 0, 0] && block[60..64] == Zeros(4);
    LoadsAt(block, 14, [0x80, 0, 0, 0], 0x80000000);
    LoadsAt(block, 15, Zeros(4), 0);
  }

  lemma SecondSpelled(block: seq<byte>)
    requires block == Zeros(62) + [1, 0xc0]
    ensures |block| == 64 && SpellsRow(block, 0, SECOND_0) && SpellsRow(block, 1, SECOND_1)
    ensures SpellsRow(block, 2, SECOND_2) && SpellsRow(block, 3, SECOND_3)
  {
    hide Load8, Schedule;
    forall t | 0 <= t < 15
      ensures Schedule(block, t) == 0
    {
      ZeroWord(block, t);
    }
    BytesLoaded();
    assert block[60..64] == [0, 0, 1, 0xc0];
    LoadsAt(block, 15, [0, 0, 1, 0xc0], 0x1c0);
  }

  lemma BlocksOf(padded: seq<byte>)
    requires padded == LETTERS + [0x80] + Zeros(69) + [1, 0xc0]
    ensures |padded| == 128 && padded[0..64] == LETTERS + [0x80] + Zeros(7) && padded[64..128] == Zeros(62) + [1, 0xc0]
  {
    hide LETTERS;
    LettersSized();
  }

  /** The digest that is published for the two-block message. */
  lemma LettersDigest()
    ensures Hash(LETTERS) ==
      [0x24, 0x8d, 0x6a, 0x61, 0xd2, 0x06, 0x38, 0xb8, 0xe5, 0xc0, 0x26, 0x93, 0x0c, 0x3e, 0x60, 0x39,
       0xa3, 0x3c, 0xe4, 0x59, 0x64, 0xff, 0x21, 0x67, 0xf6, 0xec, 0xed, 0xd4, 0x19, 0xdb, 0x06, 0xc1]
  {
    hide Compress, SpellsRow, Padded, LETTERS;
    LettersPadded();
    var padded := Padded(LETTERS);
    BlocksOf(padded);
    FirstSpelled(padded[0..64]);
    SecondSpelled(padded[64..128]);
    FirstCompressed(padded[0..64], INITIAL);
    assert Fold(padded, 0) == INITIAL && Fold(padded, 1) == Compress(INITIAL, padded[0..64]);
    SecondCompressed(padded[64..128], Fold(padded, 1));
    assert Fold(padded, 2) == Compress(Fold(padded, 1), padded[64..128]);
  }
}
