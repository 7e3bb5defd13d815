/**
 What the code tables of section 3.2 of RFC 1951 amount to, and three streams that ordinary compressors write, one
 of each block type, with what they inflate to.
 */
module DeflateExamples {
  import opened Bytes
  import opened BitStream
  import opened Huffman
  import opened Deflate
  import opened Inflater
  import opened DeflateRuns
  import DeflateEncoder
  import InflateTheory

  // ---- the tables of sections 3.2.5 and 3.2.6 ------------------------------------------------

  /** From 3 up to 257 without a gap, eight at first and then four to every number of extra bits; 258 on its own. */
  lemma LengthTable(i: nat)
    requires i < 29
    ensures |LENGTH_BASE| == |LENGTH_EXTRA| == 29 && LENGTH_BASE[0] == 3 && LENGTH_BASE[28] == 258
    ensures LENGTH_EXTRA[i] == if i < 8 || i == 28 then 0 else i / 4 - 1
    ensures i < 27 ==> LENGTH_BASE[i + 1] == LENGTH_BASE[i] + Pow2(LENGTH_EXTRA[i])
  {
    hide Pow2;
    DeflateEncoder.SmallPowers();
  }

  /** From 1 up to 32768 without a gap, four at first and then two to every number of extra bits. */
  lemma DistanceTable(i: nat)
    requires i < 30
    ensures |DISTANCE_BASE| == |DISTANCE_EXTRA| == 30 && DISTANCE_BASE[0] == 1
    ensures DISTANCE_EXTRA[i] == if i < 4 then 0 else i / 2 - 1
    ensures i < 29 ==> DISTANCE_BASE[i + 1] == DISTANCE_BASE[i] + Pow2(DISTANCE_EXTRA[i])
  {
    hide Pow2;
    DeflateEncoder.SmallPowers();
  }

  lemma {:induction false} CountConcat(a: seq<nat>, b: seq<nat>, l: nat)
    ensures Count(a + b, l) == Count(a, l) + Count(b, l)
  {
    if b == [] {
      assert a + b == a;
    } else {
      CountConcat(a, b[..|b| - 1], l);
      assert (a + b)[..|a + b| - 1] == a + b[..|b| - 1];
    }
  }

  lemma {:induction false} CountFill(n: nat, x: nat, l: nat)
    ensures Count(Fill(n, x), l) == if x == l then n else 0
  {
    if n > 0 {
      CountFill(n - 1, x, l);
      assert Fill(n, x)[..n - 1] == Fill(n - 1, x);
    }
  }

  lemma FixedCounts(l: nat)
    ensures Count(FIXED_LITERALS, l) == if l == 8 then 152 else if l == 9 then 112 else if l == 7 then 24 else 0
  {
    hide Count, Fill;
    CountFill(144, 8, l);
    CountFill(112, 9, l);
    CountFill(24, 7, l);
    CountFill(8, 8, l);
    CountConcat(Fill(144, 8) + Fill(112, 9) + Fill(24, 7), Fill(8, 8), l);
    CountConcat(Fill(144, 8) + Fill(112, 9), Fill(24, 7), l);
    CountConcat(Fill(144, 8), Fill(112, 9), l);
  }

  lemma {:induction false} NoShortCodes(lengths: seq<nat>, n: nat)
    requires forall l | 1 <= l < n :: Count(lengths, l) == 0
    ensures FirstCode(lengths, n) == 0
  {
    if n > 0 { NoShortCodes(lengths, n - 1); }
  }

  lemma FixedFirstCodes()
    ensures FirstCode(FIXED_LITERALS, 7) == 0 && FirstCode(FIXED_LITERALS, 8) == 0x30 && FirstCode(FIXED_LITERALS, 9) == 0x190
  {
    hide Count, FIXED_LITERALS;
    forall l: nat
      ensures Count(FIXED_LITERALS, l) == if l == 8 then 152 else if l == 9 then 112 else if l == 7 then 24 else 0
    {
      FixedCounts(l);
    }
    NoShortCodes(FIXED_LITERALS, 7);
  }

  /** How many of the symbols before `s` have its code length. */
  lemma FixedRank(s: nat)
    requires s < 288
    ensures |FIXED_LITERALS| == 288
    ensures s < 144 ==> FIXED_LITERALS[s] == 8 && Count(FIXED_LITERALS[..s], 8) == s
    ensures 144 <= s < 256 ==> FIXED_LITERALS[s] == 9 && Count(FIXED_LITERALS[..s], 9) == s - 144
    ensures 256 <= s < 280 ==> FIXED_LITERALS[s] == 7 && Count(FIXED_LITERALS[..s], 7) == s - 256
    ensures 280 <= s ==> FIXED_LITERALS[s] == 8 && Count(FIXED_LITERALS[..s], 8) == 144 + (s - 280)
  {
    hide Count;
    var a, b, c := Fill(144, 8), Fill(144, 8) + Fill(112, 9), Fill(144, 8) + Fill(112, 9) + Fill(24, 7);
    if s < 144 {
      RankBehind([], 0, 8, s, 8);
      assert [] + Fill(s, 8) == FIXED_LITERALS[..s];
    } else if s < 256 {
      CountFill(144, 8, 9);
      RankBehind(a, 0, 9, s - 144, 9);
      assert a + Fill(s - 144, 9) == FIXED_LITERALS[..s];
    } else if s < 280 {
      CountFill(144, 8, 7);
      RankBehind(a, 0, 7, 112, 9);
      RankBehind(b, 0, 7, s - 256, 7);
      assert b + Fill(s - 256, 7) == FIXED_LITERALS[..s];
    } else {
      CountFill(144, 8, 8);
      RankBehind(a, 144, 8, 112, 9);
      RankBehind(b, 144, 8, 24, 7);
      RankBehind(c, 144, 8, s - 280, 8);
      assert c + Fill(s - 280, 8) == FIXED_LITERALS[..s];
    }
  }

  lemma RankBehind(front: seq<nat>, before: nat, l: nat, n: nat, x: nat)
    requires front == [] || Count(front, l) == before
    requires front == [] ==> before == 0
    ensures Count(front + Fill(n, x), l) == before + if x == l then n else 0
  {
    CountConcat(front, Fill(n, x), l);
    CountFill(n, x, l);
    assert Count([], l) == 0;
  }

  /** The codes of fixed blocks: four ranges of literal and length symbols, and distances as they are, in five bits. */
  lemma FixedCodes(s: nat)
    requires s < 288
    ensures |FIXED_LITERALS| == 288
    ensures s < 144 ==> CodeBits(FIXED_LITERALS, s) == MsbFirst(0x30 + s, 8)
    ensures 144 <= s < 256 ==> CodeBits(FIXED_LITERALS, s) == MsbFirst(0x190 + (s - 144), 9)
    ensures 256 <= s < 280 ==> CodeBits(FIXED_LITERALS, s) == MsbFirst(s - 256, 7)
    ensures 280 <= s ==> CodeBits(FIXED_LITERALS, s) == MsbFirst(0xc0 + (s - 280), 8)
  {
    hide Count, FirstCode, FIXED_LITERALS, MsbFirst;
    FixedRank(s);
    FixedFirstCodes();
  }

  lemma FixedDistanceCodes(s: nat)
    requires s < 32
    ensures |FIXED_DISTANCES| == 32 && CodeBits(FIXED_DISTANCES, s) == MsbFirst(s, 5)
  {
    hide Count, MsbFirst;
    forall l: nat
      ensures Count(FIXED_DISTANCES, l) == if l == 5 then 32 else 0
    {
      CountFill(32, 5, l);
    }
    NoShortCodes(FIXED_DISTANCES, 5);
    CountFill(s, 5, 5);
    assert FIXED_DISTANCES[..s] == Fill(s, 5);
  }

  // ---- bits of bytes -------------------------------------------------------------------------

  lemma {:induction false} DigitsDrop(v: nat, n: nat, a: nat)
    requires a <= n
    ensures Digits(v, n)[a..] == Digits(Shr(v, a), n - a)
  {
    if a > 0 {
      DigitsDrop(v / 2, n - 1, a - 1);
      assert Digits(v, n)[a..] == Digits(v / 2, n - 1)[a - 1..];
    }
  }

  lemma {:induction false} DigitsTake(v: nat, n: nat, a: nat)
    requires a <= n
    ensures Digits(v, n)[..a] == Digits(v, a)
  {
    if a > 0 {
      DigitsTake(v / 2, n - 1, a - 1);
      assert Digits(v, n)[..a] == [v % 2 == 1] + Digits(v / 2, n - 1)[..a - 1];
    }
  }

  lemma ByteStands(data: seq<byte>, k: nat)
    requires k < |data|
    ensures At(BitsOf(data), 8 * k, Digits(data[k], 8))
  {
    hide Digits, Shr;
    forall i | 0 <= i < 8
      ensures BitsOf(data)[8 * k + i] == Digits(data[k], 8)[i]
    {
      DigitAt(data[k], 8, i);
      assert (8 * k + i) / 8 == k && (8 * k + i) % 8 == i;
    }
    assert BitsOf(data)[8 * k..8 * k + 8] == Digits(data[k], 8);
  }

  function Window(data: seq<byte>, k: nat): nat
    requires k + 1 < |data|
  {
    (data[k] as int) + 0x100 * (data[k + 1] as int)
  }

  lemma WindowStands(data: seq<byte>, k: nat)
    requires k + 1 < |data|
    ensures At(BitsOf(data), 8 * k, Digits(Window(data, k), 16))
  {
    hide BitsOf, Digits, At;
    ByteStands(data, k);
    ByteStands(data, k + 1);
    TwoBytes(data[k], data[k + 1]);
    AtConcat(BitsOf(data), 8 * k, Digits(data[k], 8), Digits(data[k + 1], 8));
  }

  lemma TwoBytes(a: byte, b: byte)
    ensures Digits(a + 0x100 * b, 16) == Digits(a, 8) + Digits(b, 8)
  {
    hide Digits;
    DigitsOfSum(a, 8, b, 8);
    assert Pow2(8) == 0x100 by { PowersOfTwo(); }
    ByteBound(a);
  }

  lemma ByteBound(a: byte)
    ensures a < Pow2(8)
  {
    PowersOfTwo();
  }

  lemma {:induction false} DigitsOfSum(a: nat, n: nat, b: nat, m: nat)
    requires a < Pow2(n)
    ensures Digits(a + Pow2(n) * b, n + m) == Digits(a, n) + Digits(b, m)
    decreases n
  {
    if n == 0 {
      assert [] + Digits(b, m) == Digits(b, m);
    } else {
      hide Pow2, Digits;
      PowerHalves(n, b);
      LowBit(a, Pow2(n - 1) * b);
      DigitsOfSum(a / 2, n - 1, b, m);
      DigitsStep(a + Pow2(n) * b, n + m);
      DigitsStep(a, n);
    }
  }

  lemma PowerHalves(n: nat, b: nat)
    requires n > 0
    ensures Pow2(n) == 2 * Pow2(n - 1) && Pow2(n) * b == 2 * (Pow2(n - 1) * b)
  {
    assert Pow2(n) == 2 * Pow2(n - 1);
  }

  lemma LowBit(a: nat, h: nat)
    ensures (a + 2 * h) % 2 == a % 2 && (a + 2 * h) / 2 == a / 2 + h
  {
  }

  lemma DigitsStep(v: nat, n: nat)
    requires n > 0
    ensures Digits(v, n) == [v % 2 == 1] + Digits(v / 2, n - 1)
  {
  }

  lemma SliceStands(bits: seq<bool>, from: nat, w: seq<bool>, a: nat, n: nat)
    requires At(bits, from, w) && a + n <= |w|
    ensures At(bits, from + a, w[a..][..n])
  {
    assert bits[from..from + |w|][a..][..n] == bits[from + a..from + a + n];
  }

  /** A field of `n` bits that holds `v`, with `rest` above it in its two bytes. */
  lemma FieldStands(data: seq<byte>, pos: nat, n: nat, v: nat, rest: nat)
    requires pos % 8 + n <= 16 && pos / 8 + 1 < |data| && v < Pow2(n)
    requires Shr(Window(data, pos / 8), pos % 8) == v + Pow2(n) * rest
    ensures At(BitsOf(data), pos, Digits(v, n))
  {
    hide BitsOf, Digits, Shr, Window, Pow2, At;
    var k, a, w := pos / 8, pos % 8, Window(data, pos / 8);
    WindowStands(data, k);
    DigitsDrop(w, 16, a);
    DigitsTake(Shr(w, a), 16 - a, n);
    DigitsOfSum(v, n, rest, 0);
    NoDigits(rest, Digits(v, n));
    SliceStands(BitsOf(data), 8 * k, Digits(w, 16), a, n);
    assert 8 * k + a == pos;
  }

  lemma NoDigits(v: nat, w: seq<bool>)
    ensures w + Digits(v, 0) == w
  {
  }

  lemma {:induction false} ZeroDigits(n: nat)
    ensures Digits(0, n) == seq(n, _ => false)
  {
    if n > 0 { ZeroDigits(n - 1); }
  }

  // ---- a dynamic block -----------------------------------------------------------------------

  /** What a compressor makes of twenty letters a and one b. */
  const DYNAMIC: seq<byte> := [0x05, 0xc1, 0x01, 0x01, 0x00, 0x00, 0x00, 0x80, 0x90, 0xad, 0xfa, 0x3f, 0x22, 0x00, 0x00, 0xa0, 0x01]

  /** Three symbols of one, two and two bits among unused ones: both codes of the header have this shape. */
  function Comb(a: nat, b: nat): (r: seq<nat>)
    ensures |r| == a + b + 3
  {
    Fill(a, 0) + [1, 2] + Fill(b, 0) + [2]
  }

  lemma CombCount(a: nat, b: nat, l: nat)
    requires l > 0
    ensures Count(Comb(a, b), l) == if l == 1 then 1 else if l == 2 then 2 else 0
    ensures Count(Comb(a, b)[..a], l) == 0 && Count(Comb(a, b)[..a + 1], l) == (if l == 1 then 1 else 0)
    ensures Count(Comb(a, b)[..a + b + 2], l) == if l == 1 || l == 2 then 1 else 0
  {
    hide Fill;
    var front, middle := Fill(a, 0), Fill(a, 0) + [1, 2];
    assert Comb(a, b)[..a] == front && Comb(a, b)[..a + 1] == front + [1] && Comb(a, b)[..a + b + 2] == middle + Fill(b, 0);
    CountFill(a, 0, l);
    CountFill(b, 0, l);
    CountConcat(front, [1], l);
    CountConcat(front, [1, 2], l);
    CountConcat(middle, Fill(b, 0), l);
    CountConcat(middle + Fill(b, 0), [2], l);
    SmallCounts(l);
  }

  lemma SmallCounts(l: nat)
    ensures Count([1], l) == (if l == 1 then 1 else 0) && Count([2], l) == (if l == 2 then 1 else 0)
    ensures Count([1, 2], l) == if l == 1 || l == 2 then 1 else 0
  {
    assert [1, 2][..1] == [1] && [1][..0] == [] && [2][..0] == [];
    assert Count([], l) == 0;
  }

  lemma CombAccepted(a: nat, b: nat)
    ensures Accepted(Comb(a, b))
  {
    hide Accepted, KraftSum, Fill;
    var front, middle := Fill(a, 0), Fill(b, 0);
    DeflateEncoder.KraftZeros(a);
    DeflateEncoder.KraftZeros(b);
    KraftConcat(front, [1, 2]);
    KraftConcat(front + [1, 2], middle);
    KraftConcat(front + [1, 2] + middle, [2]);
    KraftSmall();
    CombSmall(a, b);
    hide Comb;
    AcceptedIffKraft(Comb(a, b));
  }

  lemma CombSmall(a: nat, b: nat)
    ensures Comb(a, b) == Fill(a, 0) + [1, 2] + Fill(b, 0) + [2]
    ensures forall s | 0 <= s < |Comb(a, b)| :: Comb(a, b)[s] <= 2
  {
  }

  lemma KraftSmall()
    ensures KraftSum([1, 2]) == 0x6000 && KraftSum([2]) == 0x2000 && KraftSum([1, 1]) == 0x8000 && Pow2(MAX_LENGTH) == 0x8000
  {
    assert [1, 2][..1] == [1] && [1, 1][..1] == [1] && [1][..0] == [] && [2][..0] == [];
    PowersOfTwo();
    assert Pow2(15) == 2 * Pow2(14) && Pow2(14) == 2 * Pow2(13);
    assert KraftSum([]) == 0;
  }

  /** The canonical codes of such a vector. */
  lemma CombCodes(a: nat, b: nat)
    ensures var c := Comb(a, b);
      && c[a] == 1 && CodeBits(c, a) == [false] && c[a + 1] == 2 && CodeBits(c, a + 1) == [true, false]
      && c[a + b + 2] == 2 && CodeBits(c, a + b + 2) == [true, true]
  {
    hide Count;
    CombCount(a, b, 1);
    CombCount(a, b, 2);
    var c := Comb(a, b);
    hide Comb;
    assert c[a] == 1 && c[a + 1] == 2 && c[a + b + 2] == 2 by { CombShape(a, b); }
    assert FirstCode(c, 1) == 0 && FirstCode(c, 2) == 2;
    assert MsbFirst(0, 1) == [false] && MsbFirst(2, 2) == [true, false] && MsbFirst(3, 2) == [true, true];
  }

  lemma CombShape(a: nat, b: nat)
    ensures Comb(a, b)[a] == 1 && Comb(a, b)[a + 1] == 2 && Comb(a, b)[a + b + 2] == 2
  {
  }

  lemma DynamicWindows()
    ensures |DYNAMIC| == 17
    ensures Window(DYNAMIC, 0) == 0xc105 && Window(DYNAMIC, 1) == 0x01c1 && Window(DYNAMIC, 2) == 0x0101 && Window(DYNAMIC, 3) == 0x0001
    ensures Window(DYNAMIC, 4) == 0x0000 && Window(DYNAMIC, 5) == 0x0000 && Window(DYNAMIC, 6) == 0x8000 && Window(DYNAMIC, 7) == 0x9080
    ensures Window(DYNAMIC, 8) == 0xad90 && Window(DYNAMIC, 9) == 0xfaad && Window(DYNAMIC, 10) == 0x3ffa && Window(DYNAMIC, 11) == 0x223f
    ensures Window(DYNAMIC, 12) == 0x0022 && Window(DYNAMIC, 13) == 0x0000 && Window(DYNAMIC, 14) == 0xa000 && Window(DYNAMIC, 15) == 0x01a0
  {
  }

  lemma SmallPowers()
    ensures Pow2(1) == 2 && Pow2(2) == 4 && Pow2(3) == 8 && Pow2(4) == 16 && Pow2(5) == 32 && Pow2(7) == 128 && Pow2(8) == 256
  {
    PowersOfTwo();
  }

  lemma DynamicStart()
    ensures At(BitsOf(DYNAMIC), 0, Digits(5, 3))
    ensures At(BitsOf(DYNAMIC), 3, Digits(0, 5))
    ensures At(BitsOf(DYNAMIC), 8, Digits(1, 5))
    ensures At(BitsOf(DYNAMIC), 13, Digits(14, 4))
  {
    hide DYNAMIC, Window, BitsOf, At, Digits;
    DynamicWindows();
    SmallPowers();
    FieldStands(DYNAMIC, 0, 3, 5, 6176);
    FieldStands(DYNAMIC, 3, 5, 0, 193);
    FieldStands(DYNAMIC, 8, 5, 1, 14);
    FieldStands(DYNAMIC, 13, 4, 14, 0);
  }

  lemma DynamicSent()
    ensures At(BitsOf(DYNAMIC), 17, Digits(0, 3))
    ensures At(BitsOf(DYNAMIC), 20, Digits(0, 3))
    ensures At(BitsOf(DYNAMIC), 23, Digits(2, 3))
    ensures At(BitsOf(DYNAMIC), 26, Digits(0, 3))
    ensures At(BitsOf(DYNAMIC), 29, Digits(0, 3))
    ensures At(BitsOf(DYNAMIC), 32, Digits(0, 3))
    ensures At(BitsOf(DYNAMIC), 35, Digits(0, 3))
    ensures At(BitsOf(DYNAMIC), 38, Digits(0, 3))
    ensures At(BitsOf(DYNAMIC), 41, Digits(0, 3))
    ensures At(BitsOf(DYNAMIC), 44, Digits(0, 3))
    ensures At(BitsOf(DYNAMIC), 47, Digits(0, 3))
    ensures At(BitsOf(DYNAMIC), 50, Digits(0, 3))
    ensures At(BitsOf(DYNAMIC), 53, Digits(0, 3))
    ensures At(BitsOf(DYNAMIC), 56, Digits(0, 3))
    ensures At(BitsOf(DYNAMIC), 59, Digits(0, 3))
    ensures At(BitsOf(DYNAMIC), 62, Digits(2, 3))
    ensures At(BitsOf(DYNAMIC), 65, Digits(0, 3))
    ensures At(BitsOf(DYNAMIC), 68, Digits(1, 3))
  {
    hide DYNAMIC, Window, BitsOf, At, Digits;
    DynamicWindows();
    SmallPowers();
    FieldStands(DYNAMIC, 17, 3, 0, 16);
    FieldStands(DYNAMIC, 20, 3, 0, 2);
    FieldStands(DYNAMIC, 23, 3, 2, 0);
    FieldStands(DYNAMIC, 26, 3, 0, 0);
    FieldStands(DYNAMIC, 29, 3, 0, 0);
    FieldStands(DYNAMIC, 32, 3, 0, 0);
    FieldStands(DYNAMIC, 35, 3, 0, 0);
    FieldStands(DYNAMIC, 38, 3, 0, 0);
    FieldStands(DYNAMIC, 41, 3, 0, 0);
    FieldStands(DYNAMIC, 44, 3, 0, 0);
    FieldStands(DYNAMIC, 47, 3, 0, 0);
    FieldStands(DYNAMIC, 50, 3, 0, 1024);
    FieldStands(DYNAMIC, 53, 3, 0, 128);
    FieldStands(DYNAMIC, 56, 3, 0, 4624);
    FieldStands(DYNAMIC, 59, 3, 0, 578);
    FieldStands(DYNAMIC, 62, 3, 2, 72);
    FieldStands(DYNAMIC, 65, 3, 0, 2777);
    FieldStands(DYNAMIC, 68, 3, 1, 347);
  }

  lemma DynamicRuns()
    ensures At(BitsOf(DYNAMIC), 71, Digits(3, 2))
    ensures At(BitsOf(DYNAMIC), 73, Digits(86, 7))
    ensures At(BitsOf(DYNAMIC), 80, Digits(0, 1))
    ensures At(BitsOf(DYNAMIC), 81, Digits(1, 2))
    ensures At(BitsOf(DYNAMIC), 83, Digits(3, 2))
    ensures At(BitsOf(DYNAMIC), 85, Digits(127, 7))
    ensures At(BitsOf(DYNAMIC), 92, Digits(3, 2))
    ensures At(BitsOf(DYNAMIC), 94, Digits(8, 7))
    ensures At(BitsOf(DYNAMIC), 101, Digits(1, 2))
    ensures At(BitsOf(DYNAMIC), 103, Digits(0, 1))
    ensures At(BitsOf(DYNAMIC), 104, Digits(0, 1))
  {
    hide DYNAMIC, Window, BitsOf, At, Digits;
    DynamicWindows();
    SmallPowers();
    FieldStands(DYNAMIC, 71, 2, 3, 86);
    FieldStands(DYNAMIC, 73, 7, 86, 250);
    FieldStands(DYNAMIC, 80, 1, 0, 8189);
    FieldStands(DYNAMIC, 81, 2, 1, 2047);
    FieldStands(DYNAMIC, 83, 2, 3, 511);
    FieldStands(DYNAMIC, 85, 7, 127, 3);
    FieldStands(DYNAMIC, 92, 2, 3, 136);
    FieldStands(DYNAMIC, 94, 7, 8, 1);
    FieldStands(DYNAMIC, 101, 2, 1, 0);
    FieldStands(DYNAMIC, 103, 1, 0, 0);
    FieldStands(DYNAMIC, 104, 1, 0, 0);
  }

  lemma DynamicElements()
    ensures At(BitsOf(DYNAMIC), 105, Digits(0, 8))
    ensures At(BitsOf(DYNAMIC), 113, Digits(0, 8))
    ensures At(BitsOf(DYNAMIC), 121, Digits(0, 4))
    ensures At(BitsOf(DYNAMIC), 125, Digits(1, 2))
    ensures At(BitsOf(DYNAMIC), 127, Digits(3, 2))
  {
    hide DYNAMIC, Window, BitsOf, At, Digits;
    DynamicWindows();
    SmallPowers();
    FieldStands(DYNAMIC, 105, 8, 0, 0);
    FieldStands(DYNAMIC, 113, 8, 0, 80);
    FieldStands(DYNAMIC, 121, 4, 0, 13);
    FieldStands(DYNAMIC, 125, 2, 1, 3);
    FieldStands(DYNAMIC, 127, 2, 3, 0);
  }

  // ---- the dynamic block, piece by piece -----------------------------------------------------

  const CODE: seq<nat> := Comb(1, 15)
  const LITERALS: seq<nat> := Comb(97, 157)
  const DISTANCES: seq<nat> := [1, 1]
  const RUNS: seq<Run> := [Zeros(97), One(1), One(2), Zeros(138), Zeros(19), One(2), One(1), One(1)]

  lemma StretchesOf(before: seq<nat>)
    ensures Stretch(One(1), before) == [1] && Stretch(One(2), before) == [2]
    ensures Stretch(Zeros(97), before) == Fill(97, 0) && Stretch(Zeros(138), before) == Fill(138, 0)
    ensures Stretch(Zeros(19), before) == Fill(19, 0)
  {
  }

  lemma SpellOne(runs: seq<Run>, before: seq<nat>)
    requires runs != [] && RunFits(runs[0]) && !runs[0].Again?
    requires RunsLegal(runs[1..], before + Stretch(runs[0], before))
    ensures RunsLegal(runs, before) && Spelled(runs, before) == Spelled(runs[1..], before + Stretch(runs[0], before))
  {
    hide Stretch, RunFits;
  }

  lemma RunsSpell()
    ensures RunsLegal(RUNS, []) && Spelled(RUNS, []) == LITERALS + DISTANCES
  {
    hide RunsLegal, Spelled, Stretch, Fill, Comb;
    var b1 := [] + Fill(97, 0);
    var b2 := b1 + [1];
    var b3 := b2 + [2];
    var b4 := b3 + Fill(138, 0);
    var b5 := b4 + Fill(19, 0);
    var b6 := b5 + [2];
    var b7 := b6 + [1];
    var b8 := b7 + [1];
    StretchesOf([]);
    StretchesOf(b1);
    StretchesOf(b2);
    StretchesOf(b3);
    StretchesOf(b4);
    StretchesOf(b5);
    StretchesOf(b6);
    StretchesOf(b7);
    assert RunsLegal([], b8) && Spelled([], b8) == b8 by { NothingSpelled(b8); }
    assert RUNS[8..] == [];
    SpellFrom(7, b7, b8);
    SpellFrom(6, b6, b7);
    SpellFrom(5, b5, b6);
    SpellFrom(4, b4, b5);
    SpellFrom(3, b3, b4);
    SpellFrom(2, b2, b3);
    SpellFrom(1, b1, b2);
    SpellFrom(0, [], b1);
    assert RUNS[0..] == RUNS;
    WholeSpelled(b8);
  }

  lemma NothingSpelled(before: seq<nat>)
    ensures RunsLegal([], before) && Spelled([], before) == before
  {
  }

  lemma SpellFrom(k: nat, before: seq<nat>, after: seq<nat>)
    requires k < 8 && after == before + Stretch(RUNS[k], before) && RunsLegal(RUNS[k + 1..], after)
    ensures RunsLegal(RUNS[k..], before) && Spelled(RUNS[k..], before) == Spelled(RUNS[k + 1..], after)
  {
    hide Stretch, RunsLegal, Spelled;
    assert RUNS[k..][1..] == RUNS[k + 1..] && RUNS[k..][0] == RUNS[k];
    SpellOne(RUNS[k..], before);
  }

  lemma WholeSpelled(all: seq<nat>)
    requires all == [] + Fill(97, 0) + [1] + [2] + Fill(138, 0) + Fill(19, 0) + [2] + [1] + [1]
    ensures all == LITERALS + DISTANCES
  {
  }

  lemma CodesAreLegal()
    ensures DeflateEncoder.CodesLegal(LITERALS, DISTANCES) && Accepted(CODE) && Sendable(RUNS, CODE)
    ensures |CODE| == 19 && forall i | 0 <= i < 19 :: CODE[i] < 8
  {
    hide Accepted, Sendable, Comb;
    CombAccepted(1, 15);
    CombAccepted(97, 157);
    CombShape(97, 157);
    assert Accepted(DISTANCES) by { KraftSmall(); AcceptedIffKraft(DISTANCES); }
    CodeIsSmall();
  }

  lemma CodeIsSmall()
    ensures Sendable(RUNS, CODE) && |CODE| == 19 && forall i | 0 <= i < 19 :: CODE[i] < 8
  {
    assert CODE == [0, 1, 2, 0, 0, 0, 0, 0, 0, 0, 0, 0, 0, 0, 0, 0, 0, 0, 2];
  }

  lemma HeaderIsLegal()
    ensures RunHeaderLegal(LITERALS, DISTANCES, CODE, 18, RUNS)
  {
    hide DeflateEncoder.CodesLegal, Accepted, RunsLegal, Spelled, Sendable, LITERALS;
    CodesAreLegal();
    RunsSpell();
    assert forall k | 18 <= k < 19 :: SentFor(CODE)[k] == 0;
  }

  lemma {:induction false} SentStands(bits: seq<bool>, pos: nat, sent: seq<nat>)
    requires pos <= |bits| && forall k | 0 <= k < |sent| :: At(bits, pos + 3 * k, Digits(sent[k], 3))
    ensures At(bits, pos, SentBits(sent))
    decreases |sent|
  {
    hide Digits;
    if sent != [] {
      var last := |sent| - 1;
      hide At;
      SentStands(bits, pos, sent[..last]);
      AtConcat(bits, pos, SentBits(sent[..last]), Digits(sent[last], 3));
    }
  }

  lemma SentIs()
    ensures SentFor(CODE)[..18] == [0, 0, 2, 0, 0, 0, 0, 0, 0, 0, 0, 0, 0, 0, 0, 2, 0, 1]
  {
  }

  lemma SmallCodes()
    ensures |CODE| == 19 && CodeBits(CODE, 1) == Digits(0, 1) && CodeBits(CODE, 2) == Digits(1, 2)
    ensures CodeBits(CODE, 18) == Digits(3, 2)
  {
    hide CodeBits, Comb;
    CombCodes(1, 15);
    assert Digits(0, 1) == [false] && Digits(1, 2) == [true, false] && Digits(3, 2) == [true, true];
  }

  /** One run of the header at its place. */
  lemma RunStands(bits: seq<bool>, pos: nat, runs: seq<Run>, code: seq<nat>)
    requires runs != [] && Sendable(runs, code) && Sendable(runs[1..], code)
    requires At(bits, pos, RunBits(runs[0], code))
    requires At(bits, pos + |RunBits(runs[0], code)|, RunsBits(runs[1..], code))
    ensures At(bits, pos, RunsBits(runs, code))
    ensures |RunsBits(runs, code)| == |RunBits(runs[0], code)| + |RunsBits(runs[1..], code)|
  {
    hide At, RunBits, RunFits, RunSymbol;
    AtConcat(bits, pos, RunBits(runs[0], code), RunsBits(runs[1..], code));
  }

  lemma RunsAreBits()
    requires Sendable(RUNS, CODE)
    ensures RunBits(RUNS[0], CODE) == Digits(3, 2) + Digits(86, 7) && RunBits(RUNS[3], CODE) == Digits(3, 2) + Digits(127, 7)
    ensures RunBits(RUNS[4], CODE) == Digits(3, 2) + Digits(8, 7)
    ensures RunBits(RUNS[1], CODE) == RunBits(RUNS[6], CODE) == RunBits(RUNS[7], CODE) == Digits(0, 1)
    ensures RunBits(RUNS[2], CODE) == RunBits(RUNS[5], CODE) == Digits(1, 2)
  {
    hide CodeBits, CODE, Digits;
    SmallCodes();
  }

  lemma NoRuns(bits: seq<bool>, pos: nat)
    requires pos <= |bits|
    ensures RUNS[8..] == [] && Sendable([], CODE) && RunsBits([], CODE) == [] && At(bits, pos, [])
  {
  }

  lemma RunsStand()
    requires Sendable(RUNS, CODE)
    ensures At(BitsOf(DYNAMIC), 71, RunsBits(RUNS, CODE)) && |RunsBits(RUNS, CODE)| == 34
  {
    hide At, BitsOf, DYNAMIC, CODE, Sendable, RunBits, RunsBits, Digits, RUNS;
    var bits := BitsOf(DYNAMIC);
    DynamicRuns();
    RunsAreBits();
    AtConcat(bits, 71, Digits(3, 2), Digits(86, 7));
    AtConcat(bits, 83, Digits(3, 2), Digits(127, 7));
    AtConcat(bits, 92, Digits(3, 2), Digits(8, 7));
    RunsSized();
    assert 105 <= |bits| by { DynamicLong(); }
    NoRuns(bits, 105);
    RunStands(bits, 104, RUNS[7..], CODE);
    RunStands(bits, 103, RUNS[6..], CODE);
    RunStands(bits, 101, RUNS[5..], CODE);
    RunStands(bits, 92, RUNS[4..], CODE);
    RunStands(bits, 83, RUNS[3..], CODE);
    RunStands(bits, 81, RUNS[2..], CODE);
    RunStands(bits, 80, RUNS[1..], CODE);
    RunStands(bits, 71, RUNS, CODE);
  }

  lemma RunsSized()
    requires Sendable(RUNS, CODE)
    ensures |RUNS| == 8 && RUNS[0..] == RUNS && forall k | 0 <= k <= 8 :: Sendable(RUNS[k..], CODE)
    ensures forall k | 0 <= k < 8 :: RUNS[k..][0] == RUNS[k] && RUNS[k..][1..] == RUNS[k + 1..]
  {
    hide CODE, RunFits, RunSymbol;
  }

  lemma DynamicLong()
    ensures |DYNAMIC| == 17 && |BitsOf(DYNAMIC)| == 136
  {
  }

  lemma HeaderStands()
    requires RunHeaderLegal(LITERALS, DISTANCES, CODE, 18, RUNS)
    ensures At(BitsOf(DYNAMIC), 3, RunHeader(LITERALS, DISTANCES, CODE, 18, RUNS))
    ensures |RunHeader(LITERALS, DISTANCES, CODE, 18, RUNS)| == 102
  {
    hide At, BitsOf, DYNAMIC, CODE, Digits, RunsBits, SentBits, SentFor, RunHeaderLegal;
    var bits := BitsOf(DYNAMIC);
    assert |CODE| == 19 && Sendable(RUNS, CODE) by { CodesAreLegal(); }
    var sent := SentFor(CODE)[..18];
    DynamicStart();
    DynamicSent();
    SentIs();
    DynamicLong();
    SentStands(bits, 17, sent);
    RunsStand();
    assert |LITERALS| == 257 && |DISTANCES| == 2;
    AtConcat(bits, 17, SentBits(sent), RunsBits(RUNS, CODE));
    AtConcat(bits, 13, Digits(14, 4), SentBits(sent) + RunsBits(RUNS, CODE));
    AtConcat(bits, 8, Digits(1, 5), Digits(14, 4) + (SentBits(sent) + RunsBits(RUNS, CODE)));
    AtConcat(bits, 3, Digits(0, 5), Digits(1, 5) + (Digits(14, 4) + (SentBits(sent) + RunsBits(RUNS, CODE))));
  }

  // ---- its elements --------------------------------------------------------------------------

  function Letters(n: nat): seq<Element> {
    if n == 0 then [Literal(0x62)] else [Literal(0x61)] + Letters(n - 1)
  }

  function Text(n: nat): (r: seq<byte>)
    ensures |r| == n + 1
  {
    seq(n, _ => 0x61) + [0x62]
  }

  lemma LetterCodes()
    ensures |LITERALS| == 257 && LITERALS[0x61] == 1 && CodeBits(LITERALS, 0x61) == [false]
    ensures LITERALS[0x62] == 2 && CodeBits(LITERALS, 0x62) == [true, false]
    ensures LITERALS[256] == 2 && CodeBits(LITERALS, 256) == [true, true]
  {
    hide CodeBits, Comb;
    CombCodes(97, 157);
  }

  /** What the first element adds. */
  lemma FirstElement(e: Element, es: seq<Element>, lit: seq<nat>, dist: seq<nat>, out: seq<byte>)
    requires Encodable(e, lit, dist) && Applicable(out, e) && ElementsLegal(es, lit, dist, Apply(out, e))
    ensures ElementsLegal([e] + es, lit, dist, out)
    ensures ElementsBits([e] + es, lit, dist, out) == ElementBits(e, lit, dist) + ElementsBits(es, lit, dist, Apply(out, e))
    ensures ExpandElements([e] + es, lit, dist, out) == ExpandElements(es, lit, dist, Apply(out, e))
  {
    hide Encodable, Applicable, Apply, ElementBits;
    assert ([e] + es)[1..] == es;
  }

  lemma {:induction false} LettersMean(n: nat, out: seq<byte>)
    ensures ElementsLegal(Letters(n), LITERALS, DISTANCES, out)
    ensures ElementsBits(Letters(n), LITERALS, DISTANCES, out) == Digits(0, n) + [true, false, true, true]
    ensures ExpandElements(Letters(n), LITERALS, DISTANCES, out) == out + Text(n)
    decreases n
  {
    hide LITERALS, DISTANCES, CodeBits, Encodable, Applicable, Apply, ElementBits, ElementsLegal, ElementsBits, ExpandElements;
    LetterMeans(out);
    if n == 0 {
      NoMore(out + [0x62]);
      FirstElement(Literal(0x62), [], LITERALS, DISTANCES, out);
      assert [Literal(0x62)] + [] == Letters(0);
      assert [] + ([true, false] + [true, true]) == [true, false, true, true];
    } else {
      LettersMean(n - 1, out + [0x61]);
      FirstElement(Literal(0x61), Letters(n - 1), LITERALS, DISTANCES, out);
      assert Digits(0, n) == [false] + Digits(0, n - 1);
      assert out + [0x61] + Text(n - 1) == out + Text(n);
    }
  }

  lemma LetterMeans(out: seq<byte>)
    ensures Encodable(Literal(0x61), LITERALS, DISTANCES) && ElementBits(Literal(0x61), LITERALS, DISTANCES) == [false]
    ensures Encodable(Literal(0x62), LITERALS, DISTANCES) && ElementBits(Literal(0x62), LITERALS, DISTANCES) == [true, false]
    ensures Applicable(out, Literal(0x61)) && Apply(out, Literal(0x61)) == out + [0x61]
    ensures Applicable(out, Literal(0x62)) && Apply(out, Literal(0x62)) == out + [0x62]
  {
    hide LITERALS, DISTANCES, CodeBits;
    LetterCodes();
  }

  lemma NoMore(out: seq<byte>)
    ensures ElementsLegal([], LITERALS, DISTANCES, out) && ExpandElements([], LITERALS, DISTANCES, out) == out
    ensures ElementsBits([], LITERALS, DISTANCES, out) == [true, true]
  {
    hide LITERALS, CodeBits;
    LetterCodes();
  }

  lemma ElementsStand()
    ensures At(BitsOf(DYNAMIC), 105, Digits(0, 20) + [true, false, true, true])
  {
    hide At, BitsOf, DYNAMIC;
    var bits := BitsOf(DYNAMIC);
    DynamicElements();
    ZeroDigits(20);
    ZeroDigits(8);
    ZeroDigits(4);
    assert Digits(0, 20) == Digits(0, 8) + (Digits(0, 8) + Digits(0, 4));
    assert Digits(1, 2) == [true, false] && Digits(3, 2) == [true, true];
    assert [true, false, true, true] == [true, false] + [true, true];
    hide Digits;
    AtConcat(bits, 113, Digits(0, 8), Digits(0, 4));
    AtConcat(bits, 105, Digits(0, 8), Digits(0, 8) + Digits(0, 4));
    AtConcat(bits, 125, [true, false], [true, true]);
    AtConcat(bits, 105, Digits(0, 20), [true, false, true, true]);
  }

  /** Seventeen bytes of a compressor, one dynamic block, inflate to the twenty-one letters they were made from. */
  lemma DynamicInflates()
    ensures Inflate(DYNAMIC, 21) == Some(seq(20, _ => 0x61) + [0x62])
  {
    hide At, BitsOf, DYNAMIC, RunHeaderLegal, RunHeader, ElementsLegal, ElementsBits, ExpandElements, Inflate, LITERALS, CODE,
      Digits, RUNS, DISTANCES, Text;
    var bits, es := BitsOf(DYNAMIC), Letters(20);
    HeaderIsLegal();
    HeaderStands();
    LettersMean(20, []);
    ElementsStand();
    DynamicLong();
    DynamicStart();
    assert Digits(5, 3) == [true, false, true] by { FiveDigits(); }
    var header, body := RunHeader(LITERALS, DISTANCES, CODE, 18, RUNS), ElementsBits(es, LITERALS, DISTANCES, []);
    AtConcat(bits, 3, header, body);
    AtConcat(bits, 0, [true, false, true], header + body);
    RunStreamInflates(LITERALS, DISTANCES, CODE, 18, RUNS, es, DYNAMIC);
    assert [] + Text(20) == Text(20);
    assert Text(20) == seq(20, _ => 0x61) + [0x62] by { TextIs(20); }
  }

  lemma FiveDigits()
    ensures Digits(5, 3) == [true, false, true]
  {
  }

  lemma TextIs(n: nat)
    ensures Text(n) == seq(n, _ => 0x61) + [0x62]
  {
  }

  // ---- a fixed block -------------------------------------------------------------------------

  /** Seven bytes as they are, and a copy of fourteen from six places back. */
  const FIXED: seq<byte> := [0xfb, 0x9f, 0x98, 0x94, 0x9c, 0x92, 0x9a, 0x86, 0x4a, 0x02, 0x00]

  lemma FixedWindows()
    ensures |FIXED| == 11
    ensures Window(FIXED, 0) == 0x9ffb && Window(FIXED, 1) == 0x989f && Window(FIXED, 2) == 0x9498 && Window(FIXED, 3) == 0x9c94
    ensures Window(FIXED, 4) == 0x929c && Window(FIXED, 5) == 0x9a92 && Window(FIXED, 6) == 0x869a && Window(FIXED, 7) == 0x4a86
    ensures Window(FIXED, 8) == 0x024a && Window(FIXED, 9) == 0x0002
  {
  }

  lemma FixedFields()
    ensures At(BitsOf(FIXED), 0, Digits(3, 3))
    ensures At(BitsOf(FIXED), 3, Digits(1, 1))
    ensures At(BitsOf(FIXED), 4, Digits(15, 4))
    ensures At(BitsOf(FIXED), 8, Digits(15, 4))
    ensures At(BitsOf(FIXED), 12, Digits(9, 4))
    ensures At(BitsOf(FIXED), 16, Digits(8, 4))
    ensures At(BitsOf(FIXED), 20, Digits(9, 4))
    ensures At(BitsOf(FIXED), 24, Digits(4, 4))
    ensures At(BitsOf(FIXED), 28, Digits(9, 4))
    ensures At(BitsOf(FIXED), 32, Digits(12, 4))
    ensures At(BitsOf(FIXED), 36, Digits(9, 4))
    ensures At(BitsOf(FIXED), 40, Digits(2, 4))
    ensures At(BitsOf(FIXED), 44, Digits(9, 4))
    ensures At(BitsOf(FIXED), 48, Digits(10, 4))
    ensures At(BitsOf(FIXED), 52, Digits(9, 4))
    ensures At(BitsOf(FIXED), 56, Digits(6, 4))
    ensures At(BitsOf(FIXED), 60, Digits(0, 3))
    ensures At(BitsOf(FIXED), 63, Digits(5, 4))
    ensures At(BitsOf(FIXED), 67, Digits(1, 1))
    ensures At(BitsOf(FIXED), 68, Digits(0, 1))
    ensures At(BitsOf(FIXED), 69, Digits(2, 4))
    ensures At(BitsOf(FIXED), 73, Digits(1, 1))
    ensures At(BitsOf(FIXED), 74, Digits(0, 7))
  {
    hide FIXED, Window, BitsOf, At, Digits;
    FixedWindows();
    SmallPowers();
    FieldStands(FIXED, 0, 3, 3, 5119);
    FieldStands(FIXED, 3, 1, 1, 2559);
    FieldStands(FIXED, 4, 4, 15, 159);
    FieldStands(FIXED, 8, 4, 15, 2441);
    FieldStands(FIXED, 12, 4, 9, 152);
    FieldStands(FIXED, 16, 4, 8, 2377);
    FieldStands(FIXED, 20, 4, 9, 148);
    FieldStands(FIXED, 24, 4, 4, 2505);
    FieldStands(FIXED, 28, 4, 9, 156);
    FieldStands(FIXED, 32, 4, 12, 2345);
    FieldStands(FIXED, 36, 4, 9, 146);
    FieldStands(FIXED, 40, 4, 2, 2473);
    FieldStands(FIXED, 44, 4, 9, 154);
    FieldStands(FIXED, 48, 4, 10, 2153);
    FieldStands(FIXED, 52, 4, 9, 134);
    FieldStands(FIXED, 56, 4, 6, 1192);
    FieldStands(FIXED, 60, 3, 0, 149);
    FieldStands(FIXED, 63, 4, 5, 9);
    FieldStands(FIXED, 67, 1, 1, 36);
    FieldStands(FIXED, 68, 1, 0, 18);
    FieldStands(FIXED, 69, 4, 2, 1);
    FieldStands(FIXED, 73, 1, 1, 0);
    FieldStands(FIXED, 74, 7, 0, 0);
  }

  lemma MsbNext(v: nat, n: nat, b: bool)
    ensures MsbFirst(2 * v + Bit(b), n + 1) == MsbFirst(v, n) + [b]
  {
    assert (2 * v + Bit(b)) / 2 == v && (2 * v + Bit(b)) % 2 == Bit(b);
  }

  /** Codes are sent most significant bit first. */
  lemma MsbNibble(v: nat, n: nat, a: bool, b: bool, c: bool, d: bool)
    ensures MsbFirst(16 * v + 8 * Bit(a) + 4 * Bit(b) + 2 * Bit(c) + Bit(d), n + 4) == MsbFirst(v, n) + [a, b, c, d]
  {
    hide MsbFirst, Bit;
    MsbNext(v, n, a);
    MsbNext(2 * v + Bit(a), n + 1, b);
    MsbNext(2 * (2 * v + Bit(a)) + Bit(b), n + 2, c);
    MsbNext(2 * (2 * (2 * v + Bit(a)) + Bit(b)) + Bit(c), n + 3, d);
    assert MsbFirst(v, n) + [a] + [b] + [c] + [d] == MsbFirst(v, n) + [a, b, c, d];
  }

  lemma {:induction false} MsbZero(n: nat)
    ensures MsbFirst(0, n) == seq(n, _ => false)
  {
    if n > 0 { MsbZero(n - 1); }
  }

  /** All other fields are sent least significant bit first. */
  lemma NibbleDigits(a: bool, b: bool, c: bool, d: bool)
    ensures Digits(Bit(a) + 2 * (Bit(b) + 2 * (Bit(c) + 2 * Bit(d))), 4) == [a, b, c, d]
  {
    hide Digits, Bit;
    DigitsNext(a, Bit(b) + 2 * (Bit(c) + 2 * Bit(d)), 3);
    DigitsNext(b, Bit(c) + 2 * Bit(d), 2);
    DigitsNext(c, Bit(d), 1);
    DigitsNext(d, 0, 0);
    assert Bit(d) + 2 * 0 == Bit(d) && Digits(0, 0) == [];
    assert [a] + ([b] + ([c] + ([d] + []))) == [a, b, c, d];
  }

  /** Four bits of a code at their place. */
  lemma NibbleStands(bits: seq<bool>, pos: nat, v: nat, a: bool, b: bool, c: bool, d: bool)
    requires v == Bit(a) + 2 * (Bit(b) + 2 * (Bit(c) + 2 * Bit(d))) && At(bits, pos, Digits(v, 4))
    ensures At(bits, pos, [a, b, c, d])
  {
    hide At, Digits;
    NibbleDigits(a, b, c, d);
  }

  lemma LetterCode(b: bool, c: bool, d: bool)
    ensures CodeBits(FIXED_LITERALS, 0x60 + 4 * Bit(b) + 2 * Bit(c) + Bit(d))
      == [true, false, false, true] + [false, b, c, d]
  {
    hide CodeBits, FIXED_LITERALS, MsbFirst;
    FixedCodes(0x60 + 4 * Bit(b) + 2 * Bit(c) + Bit(d));
    MsbNibble(9, 4, false, b, c, d);
    MsbNibble(0, 0, true, false, false, true);
    assert MsbFirst(0, 0) == [] && [] + [true, false, false, true] == [true, false, false, true];
  }

  lemma HighCode()
    ensures CodeBits(FIXED_LITERALS, 0xff) == [true] + [true, true, true, true] + [true, true, true, true]
  {
    hide CodeBits, FIXED_LITERALS, MsbFirst;
    FixedCodes(0xff);
    MsbNext(0, 0, true);
    MsbNibble(1, 1, true, true, true, true);
    MsbNibble(31, 5, true, true, true, true);
    assert MsbFirst(0, 0) == [] && [] + [true] == [true];
  }

  lemma CopyCodes()
    ensures |FIXED_LITERALS| == 288 && |FIXED_DISTANCES| == 32
    ensures CodeBits(FIXED_DISTANCES, 4) == [false] + [false, true, false, false]
    ensures CodeBits(FIXED_LITERALS, 266) == [false, false, false] + [true, false, true, false]
    ensures CodeBits(FIXED_LITERALS, 256) == Digits(0, 7)
  {
    hide CodeBits, FIXED_LITERALS, FIXED_DISTANCES, MsbFirst, Digits;
    FixedCodes(266);
    MsbZero(3);
    MsbNibble(0, 3, true, false, true, false);
    FixedCodes(256);
    MsbZero(7);
    ZeroDigits(7);
    FixedDistanceCodes(4);
    MsbZero(1);
    MsbNibble(0, 1, false, true, false, false);
  }

  /** A letter at its place: the code of all of them begins with 1001. */
  lemma LetterStands(bits: seq<bool>, pos: nat, b: bool, c: bool, d: bool)
    requires At(bits, pos, Digits(9, 4)) && At(bits, pos + 4, Digits(2 * (Bit(b) + 2 * (Bit(c) + 2 * Bit(d))), 4))
    ensures At(bits, pos, CodeBits(FIXED_LITERALS, 0x60 + 4 * Bit(b) + 2 * Bit(c) + Bit(d)))
    ensures |CodeBits(FIXED_LITERALS, 0x60 + 4 * Bit(b) + 2 * Bit(c) + Bit(d))| == 8
  {
    hide At, Digits, CodeBits;
    LetterCode(b, c, d);
    NibbleStands(bits, pos, 9, true, false, false, true);
    NibbleStands(bits, pos + 4, 2 * (Bit(b) + 2 * (Bit(c) + 2 * Bit(d))), false, b, c, d);
    AtConcat(bits, pos, [true, false, false, true], [false, b, c, d]);
  }

  lemma HighStands()
    ensures At(BitsOf(FIXED), 3, CodeBits(FIXED_LITERALS, 0xff)) && |CodeBits(FIXED_LITERALS, 0xff)| == 9
  {
    hide At, CodeBits, BitsOf, FIXED;
    var bits := BitsOf(FIXED);
    FixedFields();
    HighCode();
    assert Digits(1, 1) == [true];
    hide Digits;
    NibbleStands(bits, 4, 15, true, true, true, true);
    NibbleStands(bits, 8, 15, true, true, true, true);
    AtConcat(bits, 3, [true], [true, true, true, true]);
    AtConcat(bits, 3, [true] + [true, true, true, true], [true, true, true, true]);
  }

  // ---- its elements --------------------------------------------------------------------------

  function Literals(vs: seq<byte>, rest: seq<Element>): seq<Element> {
    if vs == [] then rest else [Literal(vs[0])] + Literals(vs[1..], rest)
  }

  function LiteralBits(vs: seq<byte>): seq<bool> {
    if vs == [] then [] else CodeBits(FIXED_LITERALS, vs[0]) + LiteralBits(vs[1..])
  }

  lemma {:induction false} LiteralsMean(vs: seq<byte>, rest: seq<Element>, out: seq<byte>)
    requires ElementsLegal(rest, FIXED_LITERALS, FIXED_DISTANCES, out + vs)
    ensures ElementsLegal(Literals(vs, rest), FIXED_LITERALS, FIXED_DISTANCES, out)
    ensures ElementsBits(Literals(vs, rest), FIXED_LITERALS, FIXED_DISTANCES, out)
      == LiteralBits(vs) + ElementsBits(rest, FIXED_LITERALS, FIXED_DISTANCES, out + vs)
    ensures ExpandElements(Literals(vs, rest), FIXED_LITERALS, FIXED_DISTANCES, out)
      == ExpandElements(rest, FIXED_LITERALS, FIXED_DISTANCES, out + vs)
    decreases |vs|
  {
    hide ElementBits, Encodable, Applicable, Apply, CodeBits, FIXED_LITERALS, FIXED_DISTANCES, ElementsLegal, ElementsBits,
      ExpandElements;
    var tail := ElementsBits(rest, FIXED_LITERALS, FIXED_DISTANCES, out + vs);
    if vs == [] {
      assert out + vs == out && [] + tail == tail;
    } else {
      assert (out + [vs[0]]) + vs[1..] == out + vs;
      LiteralsMean(vs[1..], rest, out + [vs[0]]);
      LiteralMeans(vs[0], out);
      FirstElement(Literal(vs[0]), Literals(vs[1..], rest), FIXED_LITERALS, FIXED_DISTANCES, out);
      var head := CodeBits(FIXED_LITERALS, vs[0]);
      assert head + (LiteralBits(vs[1..]) + tail) == (head + LiteralBits(vs[1..])) + tail;
    }
  }

  lemma LiteralMeans(v: byte, out: seq<byte>)
    ensures |FIXED_LITERALS| == 288 && Encodable(Literal(v), FIXED_LITERALS, FIXED_DISTANCES)
    ensures ElementBits(Literal(v), FIXED_LITERALS, FIXED_DISTANCES) == CodeBits(FIXED_LITERALS, v)
    ensures Applicable(out, Literal(v)) && Apply(out, Literal(v)) == out + [v]
  {
    hide Count, CodeBits;
    FixedRank(v);
  }

  const PLAIN: seq<byte> := [0xff, 0x61, 0x62, 0x63, 0x64, 0x65, 0x66]
  const AGAIN: seq<Element> := [Copy(266, 1, 4, 1)]

  lemma LiteralStands(bits: seq<bool>, pos: nat, vs: seq<byte>)
    requires vs != [] && At(bits, pos, CodeBits(FIXED_LITERALS, vs[0]))
    requires At(bits, pos + |CodeBits(FIXED_LITERALS, vs[0])|, LiteralBits(vs[1..]))
    ensures At(bits, pos, LiteralBits(vs)) && |LiteralBits(vs)| == |CodeBits(FIXED_LITERALS, vs[0])| + |LiteralBits(vs[1..])|
  {
    hide At, CodeBits, FIXED_LITERALS;
    LiteralMeans(vs[0], []);
    AtConcat(bits, pos, CodeBits(FIXED_LITERALS, vs[0]), LiteralBits(vs[1..]));
  }

  lemma PlainStands()
    ensures At(BitsOf(FIXED), 3, LiteralBits(PLAIN)) && |LiteralBits(PLAIN)| == 57
  {
    hide At, CodeBits, BitsOf, FIXED, LiteralBits, FIXED_LITERALS, Digits;
    var bits := BitsOf(FIXED);
    FixedFields();
    HighStands();
    LetterStands(bits, 12, false, false, true);
    LetterStands(bits, 20, false, true, false);
    LetterStands(bits, 28, false, true, true);
    LetterStands(bits, 36, true, false, false);
    LetterStands(bits, 44, true, false, true);
    LetterStands(bits, 52, true, true, false);
    FixedLong();
    PlainSlices();
    NoLiterals(bits, 60);
    LiteralStands(bits, 52, PLAIN[6..]);
    LiteralStands(bits, 44, PLAIN[5..]);
    LiteralStands(bits, 36, PLAIN[4..]);
    LiteralStands(bits, 28, PLAIN[3..]);
    LiteralStands(bits, 20, PLAIN[2..]);
    LiteralStands(bits, 12, PLAIN[1..]);
    LiteralStands(bits, 3, PLAIN);
  }

  lemma PlainSlices()
    ensures PLAIN[7..] == [] && PLAIN[0..] == PLAIN && forall k | 0 <= k < 7 :: PLAIN[k..][1..] == PLAIN[k + 1..]
    ensures PLAIN[6..][0] == 0x66 && PLAIN[5..][0] == 0x65 && PLAIN[4..][0] == 0x64 && PLAIN[3..][0] == 0x63
    ensures PLAIN[2..][0] == 0x62 && PLAIN[1..][0] == 0x61 && PLAIN[0] == 0xff
  {
  }

  lemma NoLiterals(bits: seq<bool>, pos: nat)
    requires pos <= |bits|
    ensures LiteralBits([]) == [] && At(bits, pos, LiteralBits([]))
  {
  }

  lemma FixedLong()
    ensures |FIXED| == 11 && |BitsOf(FIXED)| == 88
  {
  }

  /** The copy takes the last six bytes twice, and then two of them. */
  lemma CopyMeans(out: seq<byte>)
    requires out == PLAIN
    ensures Applicable(out, AGAIN[0]) && Apply(out, AGAIN[0])
      == out + [0x61, 0x62, 0x63, 0x64, 0x65, 0x66, 0x61, 0x62, 0x63, 0x64, 0x65, 0x66, 0x61, 0x62]
  {
    hide Pow2, Repetition;
    SmallPowers();
    assert CopyLength(AGAIN[0]) == 14 && CopyDistance(AGAIN[0]) == 6;
    TwiceAndTwo();
  }

  lemma TwiceAndTwo()
    ensures Repetition(PLAIN, 14, 6)
      == [0x61, 0x62, 0x63, 0x64, 0x65, 0x66, 0x61, 0x62, 0x63, 0x64, 0x65, 0x66, 0x61, 0x62]
  {
    forall i: nat | i < 14
      ensures Phase(i, 6) == if i < 6 then i else if i < 12 then i - 6 else i - 12
    {
      assert i >= 12 ==> Phase(i, 6) == Phase(i - 6, 6) == Phase(i - 12, 6);
    }
  }

  lemma AgainMeans(out: seq<byte>)
    requires out == PLAIN
    ensures ElementsLegal(AGAIN, FIXED_LITERALS, FIXED_DISTANCES, out)
    ensures ElementsBits(AGAIN, FIXED_LITERALS, FIXED_DISTANCES, out)
      == (CodeBits(FIXED_LITERALS, 266) + ([true] + (CodeBits(FIXED_DISTANCES, 4) + [true]))) + CodeBits(FIXED_LITERALS, 256)
    ensures ExpandElements(AGAIN, FIXED_LITERALS, FIXED_DISTANCES, out) == Apply(out, AGAIN[0])
  {
    hide CodeBits, FIXED_LITERALS, FIXED_DISTANCES, Apply;
    assert Used(FIXED_LITERALS, 266) && Used(FIXED_LITERALS, 256) && Used(FIXED_DISTANCES, 4) by { CopyUsed(); }
    CopyMeans(out);
    SmallPowers();
    assert Digits(1, 1) == [true];
    assert AGAIN[1..] == [];
  }

  lemma CopyUsed()
    ensures Used(FIXED_LITERALS, 266) && Used(FIXED_LITERALS, 256) && Used(FIXED_DISTANCES, 4)
  {
    hide Count;
    FixedRank(266);
    FixedRank(256);
  }

  lemma AgainStands()
    ensures At(BitsOf(FIXED), 60, (CodeBits(FIXED_LITERALS, 266) + ([true] + (CodeBits(FIXED_DISTANCES, 4) + [true])))
      + CodeBits(FIXED_LITERALS, 256))
    ensures |CodeBits(FIXED_LITERALS, 266)| == |CodeBits(FIXED_LITERALS, 256)| == 7 && |CodeBits(FIXED_DISTANCES, 4)| == 5
  {
    hide At, BitsOf, FIXED, CodeBits, FIXED_LITERALS, FIXED_DISTANCES;
    var bits := BitsOf(FIXED);
    FixedFields();
    CopyCodes();
    ZeroDigits(3);
    ZeroDigits(1);
    assert Digits(0, 3) == [false, false, false] && Digits(0, 1) == [false] && Digits(1, 1) == [true];
    hide Digits;
    NibbleStands(bits, 63, 5, true, false, true, false);
    NibbleStands(bits, 69, 2, false, true, false, false);
    AtConcat(bits, 60, [false, false, false], [true, false, true, false]);
    AtConcat(bits, 68, [false], [false, true, false, false]);
    var far := CodeBits(FIXED_DISTANCES, 4);
    AtConcat(bits, 68, far, [true]);
    AtConcat(bits, 67, [true], far + [true]);
    AtConcat(bits, 60, CodeBits(FIXED_LITERALS, 266), [true] + (far + [true]));
    AtConcat(bits, 60, CodeBits(FIXED_LITERALS, 266) + ([true] + (far + [true])), CodeBits(FIXED_LITERALS, 256));
  }

  /** A stream of one block and how it starts. */
  lemma OneBlock(b: Block, body: seq<bool>)
    requires BlockLegal(b, 0, []) && body == BodyBits(b, 0, [])
    ensures StreamLegal([b], 0, []) && ExpandStream([b], 0, []) == ExpandBlock(b, 0, [])
    ensures StreamBits([b], 0, []) == [true] + (Digits(BlockType(b), 2) + body)
  {
    hide BlockLegal, BodyBits, ExpandBlock, BlockType;
    assert Digits(1, 1) == [true];
  }

  const TWICE: seq<byte> := [0x61, 0x62, 0x63, 0x64, 0x65, 0x66, 0x61, 0x62, 0x63, 0x64, 0x65, 0x66, 0x61, 0x62]

  /** Eleven bytes of a compressor, one fixed block with a copy that overlaps itself. */
  lemma FixedInflates()
    ensures Inflate(FIXED, 21) == Some(PLAIN + TWICE)
  {
    hide At, BitsOf, FIXED, LiteralBits, ElementsLegal, ElementsBits, ExpandElements, Inflate, FIXED_LITERALS, FIXED_DISTANCES,
      CodeBits, Literals, Digits, StreamLegal, StreamBits, ExpandStream, PLAIN;
    var bits, b := BitsOf(FIXED), Fixed(Literals(PLAIN, AGAIN));
    assert [] + PLAIN == PLAIN;
    AgainMeans(PLAIN);
    LiteralsMean(PLAIN, AGAIN, []);
    CopyMeans(PLAIN);
    PlainStands();
    AgainStands();
    FixedFields();
    FixedLong();
    var tail := ElementsBits(AGAIN, FIXED_LITERALS, FIXED_DISTANCES, PLAIN);
    var body := LiteralBits(PLAIN) + tail;
    AtConcat(bits, 3, LiteralBits(PLAIN), tail);
    OneBlock(b, body);
    assert Digits(3, 3) == [true] + Digits(1, 2) by { ThreeDigits(); }
    AtConcat(bits, 0, [true], Digits(1, 2));
    AtConcat(bits, 1, Digits(1, 2), body);
    AtConcat(bits, 0, [true], Digits(1, 2) + body);
    PlainLong();
    assert InflateTheory.Encodes(FIXED, [b]) && ExpandStream([b], 0, []) == PLAIN + TWICE;
    InflateTheory.InflateExact(FIXED, 21, PLAIN + TWICE);
  }

  lemma ThreeDigits()
    ensures Digits(3, 3) == [true] + Digits(1, 2)
  {
  }

  lemma PlainLong()
    ensures |PLAIN + TWICE| == 21
  {
  }

  // ---- a stored block ------------------------------------------------------------------------

  /** One byte as it is: the low byte of the length comes first, then its complement. */
  const STORED: seq<byte> := [0x01, 0x01, 0x00, 0xfe, 0xff, 0x61]

  lemma StoredBytes()
    ensures |STORED| == 6 && |BitsOf(STORED)| == 48
    ensures Window(STORED, 0) == 0x0101 && Window(STORED, 1) == 0x0001 && Window(STORED, 3) == 0xfffe && STORED[5] == 0x61
  {
  }

  lemma StoredInflates()
    ensures Inflate(STORED, 1) == Some([0x61])
  {
    hide At, BitsOf, STORED, Inflate, Digits, Window, StreamLegal, StreamBits, ExpandStream;
    var bits, b := BitsOf(STORED), Stored([false, false, false, false, false], [0x61]);
    StoredBytes();
    SmallPowers();
    FieldStands(STORED, 0, 3, 1, 32);
    FieldStands(STORED, 3, 5, 0, 1);
    WindowStands(STORED, 1);
    WindowStands(STORED, 3);
    ByteStands(STORED, 5);
    assert Digits(1, 3) == [true] + Digits(0, 2) && Digits(0, 5) == [false, false, false, false, false] by { OneDigits(); }
    assert BytesBits([0x61]) == Digits(0x61, 8) by {
      assert [0x61 as byte][1..] == [] && Digits(0x61, 8) + [] == Digits(0x61, 8);
    }
    AtConcat(bits, 24, Digits(0xfffe, 16), Digits(0x61, 8));
    AtConcat(bits, 8, Digits(1, 16), Digits(0xfffe, 16) + Digits(0x61, 8));
    AtConcat(bits, 3, Digits(0, 5), Digits(1, 16) + (Digits(0xfffe, 16) + Digits(0x61, 8)));
    var body := Digits(0, 5) + (Digits(1, 16) + (Digits(0xfffe, 16) + Digits(0x61, 8)));
    OneBlock(b, body);
    AtConcat(bits, 0, [true], Digits(0, 2));
    AtConcat(bits, 1, Digits(0, 2), body);
    AtConcat(bits, 0, [true], Digits(0, 2) + body);
    assert InflateTheory.Encodes(STORED, [b]) && ExpandStream([b], 0, []) == [0x61];
    InflateTheory.InflateExact(STORED, 1, [0x61]);
  }

  lemma OneDigits()
    ensures Digits(1, 3) == [true] + Digits(0, 2) && Digits(0, 5) == [false, false, false, false, false]
  {
    ZeroDigits(5);
  }
}
