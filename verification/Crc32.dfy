/**
 The bitwise CRC-32 of the ZIP format: it is the polynomial division of the message, and it detects every
 burst of errors that spans at most 32 bits.
 */
module Crc32 {
  import opened Bytes
  import opened BitStream

  const POLYNOMIAL: bv32 := 0xedb8_8320

  function Xor(a: bv32, b: bv32): bv32 { a ^ b }

  function Load(b: byte): bv32 { (b as bv8) as bv32 }

  function Half(a: bv32): bv32 { a >> 1 }

  function Low(a: bv32): bv32 { a & 1 }

  /** One step of the register: the bit shifted out decides whether the polynomial is added. */
  function Shift(c: bv32): bv32 { if Low(c) == 1 then Xor(Half(c), POLYNOMIAL) else Half(c) }

  function Shifts(c: bv32, n: nat): bv32
    decreases n
  {
    if n == 0 then c else Shifts(Shift(c), n - 1)
  }

  /** The register after one more byte. */
  function Step(c: bv32, b: byte): bv32 { Shifts(Xor(c, Load(b)), 8) }

  function Update(c: bv32, data: seq<byte>): bv32
    decreases |data|
  {
    if data == [] then c else Update(Step(c, data[0]), data[1..])
  }

  function Checksum(data: seq<byte>): bv32 { !Update(0xffff_ffff, data) }

  // ---- the algorithm -------------------------------------------------------------------------

  /** The negated low bit is a mask of all ones or of all zeros. */
  function MaskedShift(c: bv32): (r: bv32)
    ensures r == Shift(c)
  {
    (c >> 1) ^ (POLYNOMIAL & (0 - (c & 1)))
  }

  method ShiftByte(start: bv32) returns (crc: bv32)
    ensures crc == Shifts(start, 8)
  {
    hide Shift, MaskedShift;
    crc := start;
    for bit := 0 to 8
      invariant Shifts(crc, 8 - bit) == Shifts(start, 8)
    {
      crc := MaskedShift(crc);
    }
  }

  method Compute(data: seq<byte>) returns (crc: bv32)
    ensures crc == Checksum(data)
  {
    hide Shifts, Xor, Load;
    crc := 0xffff_ffff;
    for i := 0 to |data|
      invariant Update(crc, data[i..]) == Update(0xffff_ffff, data)
    {
      assert data[i..][1..] == data[i + 1..];
      crc := ShiftByte(Xor(crc, Load(data[i])));
    }
    crc := !crc;
  }

  // ---- laws of the register ------------------------------------------------------------------

  /** One place up. */
  function Up(y: bv32): bv32 { y << 1 }

  function Unit(b: bool): bv32 { if b then 1 else 0 }

  predicate TopClear(y: bv32) { y < 0x8000_0000 }

  lemma XorAssociates(a: bv32, b: bv32, c: bv32)
    ensures Xor(a, Xor(b, c)) == Xor(Xor(a, b), c)
    ensures Xor(a, 0) == a
  {
  }

  lemma XorInjective(a: bv32, b: bv32, x: bv32)
    ensures Xor(a, x) == Xor(b, x) ==> a == b
    ensures Xor(x, a) == Xor(x, b) ==> a == b
  {
  }

  lemma ShiftCases(c: bv32)
    ensures Low(c) == 0 ==> Shift(c) == Half(c)
    ensures Low(c) == 1 ==> Shift(c) == Xor(Half(c), POLYNOMIAL)
    ensures Low(c) == 0 || Low(c) == 1
  {
  }

  lemma XorHalf(a: bv32, b: bv32)
    ensures Half(Xor(a, b)) == Xor(Half(a), Half(b))
  {
  }

  lemma XorLow(a: bv32, b: bv32)
    ensures Low(Xor(a, b)) == Xor(Low(a), Low(b))
  {
  }

  lemma UpDown(y: bv32)
    ensures TopClear(y) ==> Half(Up(y)) == y
    ensures Low(Up(y)) == 0
  {
  }

  lemma UpInvisible(x: bv32, y: bv32)
    requires TopClear(y)
    ensures Low(Xor(x, Up(y))) == Low(x)
    ensures Half(Xor(x, Up(y))) == Xor(Half(x), y)
  {
    hide Xor, Up, TopClear, Half, Low;
    XorHalf(x, Up(y));
    XorLow(x, Up(y));
    UpDown(y);
    XorAssociates(Low(x), 0, 0);
  }

  lemma XorSwaps(a: bv32, b: bv32, c: bv32)
    ensures Xor(Xor(a, b), c) == Xor(Xor(a, c), b)
  {
    XorCommutes(b, c);
    hide Xor;
    XorAssociates(a, b, c);
    XorAssociates(a, c, b);
  }

  lemma XorCommutes(a: bv32, b: bv32)
    ensures Xor(a, b) == Xor(b, a)
  {
  }

  /** Adding `y` after a step is adding it one place up before the step. */
  lemma ShiftXor(x: bv32, y: bv32)
    requires TopClear(y)
    ensures Shift(Xor(x, Up(y))) == Xor(Shift(x), y)
  {
    hide Shift, Xor, Up, TopClear, Half, Low;
    ShiftCases(x);
    ShiftCases(Xor(x, Up(y)));
    UpInvisible(x, y);
    XorSwaps(Half(x), POLYNOMIAL, y);
  }

  lemma ShiftInjective(c: bv32, d: bv32)
    ensures Shift(c) == Shift(d) ==> c == d
  {
  }

  lemma LowBit(a: bool, b: bool, x: bv32, y: bv32)
    requires TopClear(x) && TopClear(y) && Xor(Unit(a), Up(x)) == Xor(Unit(b), Up(y))
    ensures a == b && x == y
  {
  }

  lemma {:induction false} ShiftsInjective(c: bv32, d: bv32, n: nat)
    requires Shifts(c, n) == Shifts(d, n)
    ensures c == d
    decreases n
  {
    hide Shift;
    if n > 0 {
      ShiftsInjective(Shift(c), Shift(d), n - 1);
      ShiftInjective(c, d);
    }
  }

  // ---- the reference: division of the message polynomial, bit by bit -------------------------

  /** The shift register of the polynomial division, fed one message bit at a time. */
  function Divide(c: bv32, bits: seq<bool>): bv32
    decreases |bits|
  {
    if bits == [] then c else Divide(Shift(Xor(c, Unit(bits[0]))), bits[1..])
  }

  /** Up to 32 message bits as one word, first bit lowest. */
  function Word(bits: seq<bool>): bv32 {
    if bits == [] then 0 else Xor(Unit(bits[0]), Up(Word(bits[1..])))
  }

  function And(a: bv32, b: bv32): bv32 { a & b }

  /** All places from `n` on. */
  function Above(n: nat): bv32 { if n == 0 then 0xffff_ffff else Up(Above(n - 1)) }

  lemma AboveStep(m: bv32, x: bv32, b: bool)
    ensures And(x, m) == 0 ==> And(Xor(Unit(b), Up(x)), Up(m)) == 0
    ensures And(0, m) == 0
  {
  }

  lemma UpNested(m: bv32)
    ensures And(Up(m), m) == Up(m) ==> And(Up(Up(m)), Up(m)) == Up(Up(m))
    ensures And(m, 0xffff_ffff) == m
  {
  }

  lemma {:induction false} AboveNested(n: nat)
    ensures And(Above(n + 1), Above(n)) == Above(n + 1)
  {
    hide Up, And;
    if n == 0 {
      UpNested(Up(Above(0)));
    } else {
      AboveNested(n - 1);
      UpNested(Above(n - 1));
    }
  }

  lemma TopInherited(m: bv32, k: bv32)
    ensures And(k, m) == k && !TopClear(k) ==> !TopClear(m)
    ensures And(k, m) == 0 && !TopClear(m) ==> TopClear(k)
  {
  }

  lemma Above31()
    ensures !TopClear(Above(31))
  {
    assert Above(8) == 0xffff_ff00;
    assert Above(16) == Up(Up(Up(Up(Up(Up(Up(Up(Above(8)))))))));
    assert Above(24) == Up(Up(Up(Up(Up(Up(Up(Up(Above(16)))))))));
    assert Above(31) == Up(Up(Up(Up(Up(Up(Up(Above(24))))))));
  }

  lemma {:induction false} AboveTop(n: nat)
    requires n <= 31
    ensures !TopClear(Above(n))
    decreases 31 - n
  {
    hide Up, And, TopClear, Above;
    if n < 31 {
      AboveTop(n + 1);
      AboveNested(n);
      TopInherited(Above(n), Above(n + 1));
    } else {
      Above31();
    }
  }

  lemma {:induction false} WordBelow(bits: seq<bool>)
    ensures And(Word(bits), Above(|bits|)) == 0
    ensures |bits| <= 31 ==> TopClear(Word(bits))
  {
    hide Up, Xor, Unit, TopClear, And;
    if bits != [] {
      WordBelow(bits[1..]);
      AboveStep(Above(|bits| - 1), Word(bits[1..]), bits[0]);
    } else {
      AboveStep(Above(0), 0, false);
    }
    if |bits| <= 31 {
      AboveTop(|bits|);
      TopInherited(Above(|bits|), Word(bits));
    }
  }

  lemma {:induction false} WordInjective(a: seq<bool>, b: seq<bool>)
    requires |a| == |b| <= 32 && Word(a) == Word(b)
    ensures a == b
  {
    hide Up, Xor, Unit, TopClear;
    if a != [] {
      WordBelow(a[1..]);
      WordBelow(b[1..]);
      LowBit(a[0], b[0], Word(a[1..]), Word(b[1..]));
      WordInjective(a[1..], b[1..]);
      assert a == [a[0]] + a[1..] && b == [b[0]] + b[1..];
    }
  }

  /** Up to 32 bits enter the register as one word. */
  lemma {:induction false} DivideWord(c: bv32, bits: seq<bool>)
    requires |bits| <= 32
    ensures Divide(c, bits) == Shifts(Xor(c, Word(bits)), |bits|)
    decreases |bits|
  {
    hide Shift, Up, Xor, Unit, TopClear;
    if bits == [] {
      XorAssociates(c, 0, 0);
    } else {
      var x, rest := Unit(bits[0]), Word(bits[1..]);
      WordBelow(bits[1..]);
      DivideWord(Shift(Xor(c, x)), bits[1..]);
      ShiftXor(Xor(c, x), rest);
      XorAssociates(c, x, Up(rest));
    }
  }

  lemma {:induction false} DivideConcat(c: bv32, a: seq<bool>, b: seq<bool>)
    ensures Divide(c, a + b) == Divide(Divide(c, a), b)
    decreases |a|
  {
    hide Shift, Xor, Unit;
    if a == [] {
      assert a + b == b;
    } else {
      DivideConcat(Shift(Xor(c, Unit(a[0]))), a[1..], b);
      assert (a + b)[1..] == a[1..] + b;
    }
  }

  lemma {:induction false} DivideInjective(c: bv32, d: bv32, bits: seq<bool>)
    requires Divide(c, bits) == Divide(d, bits)
    ensures c == d
    decreases |bits|
  {
    hide Shift, Xor, Unit;
    if bits != [] {
      var x := Unit(bits[0]);
      DivideInjective(Shift(Xor(c, x)), Shift(Xor(d, x)), bits[1..]);
      ShiftInjective(Xor(c, x), Xor(d, x));
      XorInjective(c, d, x);
    }
  }

  // ---- bytes against bits --------------------------------------------------------------------

  lemma LoadSplit(b: byte)
    ensures Load(b) == Xor(Unit(b % 2 == 1), Up(Load(b / 2)))
  {
    hide Xor, Up;
    LoadLow(b);
    LoadHalf(b);
    HalfAndLow(Load(b));
    hide Load;
  }

  lemma LoadLow(b: byte)
    ensures Low(Load(b)) == Unit(b % 2 == 1)
  {
  }

  lemma LoadHalf(b: byte)
    ensures Half(Load(b)) == Load(b / 2)
  {
    ByteHalf(b);
    WideHalf(b as bv8);
  }

  lemma ByteHalf(b: byte)
    ensures (b / 2) as bv8 == (b as bv8) >> 1
  {
    HalvedTwice(b);
  }

  lemma HalvedTwice(b: byte)
    ensures b / 2 / 2 == b / 4 && b / 2 / 4 == b / 8 && b / 2 / 8 == b / 16 && b / 2 / 16 == b / 32
    ensures b / 2 / 32 == b / 64 && b / 2 / 64 == b / 128 && b / 2 / 128 == 0
  {
  }

  lemma WideHalf(x: bv8)
    ensures (x >> 1) as bv32 == (x as bv32) >> 1
  {
  }

  lemma HalfAndLow(c: bv32)
    ensures c == Xor(Low(c), Up(Half(c)))
  {
  }

  lemma {:induction false} LoadIsWord(b: byte, n: nat)
    requires b < Pow2(n)
    ensures Load(b) == Word(Digits(b, n))
    decreases n
  {
    hide Xor, Unit, Up;
    if n > 0 {
      hide Load;
      LoadSplit(b);
      LoadIsWord(b / 2, n - 1);
      assert Digits(b, n)[1..] == Digits(b / 2, n - 1);
    }
  }

  lemma FirstByte(data: seq<byte>)
    requires data != []
    ensures BitsOf(data) == Digits(data[0], 8) + BitsOf(data[1..])
  {
    hide BitsOf, Digits;
    forall i | 0 <= i < 8 * |data|
      ensures (Digits(data[0], 8) + BitsOf(data[1..]))[i] == BitsOf(data)[i]
    {
      if i < 8 { BitOfFirst(data, i); } else { BitOfRest(data, i); }
    }
  }

  lemma BitOfFirst(data: seq<byte>, i: nat)
    requires data != [] && i < 8
    ensures BitsOf(data)[i] == Digits(data[0], 8)[i]
  {
    hide Shr, Digits;
    DigitAt(data[0], 8, i);
    assert i / 8 == 0 && i % 8 == i;
  }

  lemma BitOfRest(data: seq<byte>, i: nat)
    requires data != [] && 8 <= i < 8 * |data|
    ensures BitsOf(data)[i] == BitsOf(data[1..])[i - 8]
  {
    hide BitOf;
    assert i / 8 == (i - 8) / 8 + 1 && i % 8 == (i - 8) % 8;
    assert data[1..][(i - 8) / 8] == data[i / 8];
  }

  /** Byte-wise processing is exactly the bit-wise division of the whole message. */
  lemma {:induction false} UpdateIsDivision(c: bv32, data: seq<byte>)
    ensures Update(c, data) == Divide(c, BitsOf(data))
    decreases |data|
  {
    if data == [] {
      assert BitsOf(data) == [];
    } else {
      hide Shifts, Divide, Xor, Load, BitsOf, Word, Digits;
      Pow2Mono(8, 8);
      LoadIsWord(data[0], 8);
      DivideWord(c, Digits(data[0], 8));
      UpdateIsDivision(Step(c, data[0]), data[1..]);
      FirstByte(data);
      DivideConcat(c, Digits(data[0], 8), BitsOf(data[1..]));
    }
  }

  // ---- detected errors -----------------------------------------------------------------------

  lemma ComplementInjective(a: bv32, b: bv32)
    ensures !a == !b ==> a == b
  {
  }

  /** Two messages that differ only within some 32 consecutive bits have different checksums. */
  lemma BurstDetected(a: seq<byte>, b: seq<byte>, before: seq<bool>, u: seq<bool>, v: seq<bool>, after: seq<bool>)
    requires BitsOf(a) == before + u + after && BitsOf(b) == before + v + after
    requires |u| == |v| <= 32 && u != v
    ensures Checksum(a) != Checksum(b)
  {
    hide Update, Divide, Shifts, Xor, Word, BitsOf;
    var start: bv32 := 0xffff_ffff;
    if Checksum(a) == Checksum(b) {
      ComplementInjective(Update(start, a), Update(start, b));
      UpdateIsDivision(start, a);
      UpdateIsDivision(start, b);
      DivideConcat(start, before + u, after);
      DivideConcat(start, before + v, after);
      DivideConcat(start, before, u);
      DivideConcat(start, before, v);
      var c := Divide(start, before);
      DivideInjective(Divide(c, u), Divide(c, v), after);
      DivideWord(c, u);
      DivideWord(c, v);
      ShiftsInjective(Xor(c, Word(u)), Xor(c, Word(v)), |u|);
      XorInjective(Word(u), Word(v), c);
      WordInjective(u, v);
    }
  }

  lemma {:induction false} DigitsInjective(a: nat, b: nat, n: nat)
    requires a < Pow2(n) && b < Pow2(n) && Digits(a, n) == Digits(b, n)
    ensures a == b
  {
    ValueOfDigits(a, n);
    ValueOfDigits(b, n);
  }

  lemma {:induction false} BitsConcat(a: seq<byte>, b: seq<byte>)
    ensures BitsOf(a + b) == BitsOf(a) + BitsOf(b)
  {
    hide BitsOf;
    forall i | 0 <= i < 8 * |a + b|
      ensures BitsOf(a + b)[i] == (BitsOf(a) + BitsOf(b))[i]
    {
      if i < 8 * |a| { BitOfFront(a, b, i); } else { BitOfBack(a, b, i - 8 * |a|); }
    }
  }

  lemma BitOfFront(a: seq<byte>, b: seq<byte>, i: nat)
    requires i < 8 * |a|
    ensures BitsOf(a + b)[i] == BitsOf(a)[i]
  {
    hide BitOf;
  }

  lemma BitOfBack(a: seq<byte>, b: seq<byte>, i: nat)
    requires i < 8 * |b|
    ensures BitsOf(a + b)[8 * |a| + i] == BitsOf(b)[i]
  {
    hide BitOf;
    assert (8 * |a| + i) / 8 == |a| + i / 8 && (8 * |a| + i) % 8 == i % 8;
  }

  /** In particular a message with one changed byte never keeps its checksum. */
  lemma OneByteDetected(data: seq<byte>, i: nat, x: byte)
    requires i < |data| && data[i] != x
    ensures Checksum(data[i := x]) != Checksum(data)
  {
    hide Checksum, BitsOf, Digits;
    var before, after := data[..i], data[i + 1..];
    assert data == before + [data[i]] + after && data[i := x] == before + [x] + after;
    forall y: byte
      ensures BitsOf(before + [y] + after) == BitsOf(before) + Digits(y, 8) + BitsOf(after)
    {
      BitsConcat(before + [y], after);
      BitsConcat(before, [y]);
      FirstByte([y]);
      assert BitsOf([]) == [];
    }
    Pow2Mono(8, 8);
    if Digits(data[i], 8) == Digits(x, 8) { DigitsInjective(data[i], x, 8); }
    BurstDetected(data, data[i := x], BitsOf(before), Digits(data[i], 8), Digits(x, 8), BitsOf(after));
  }

  /** The check value of CRC-32: the checksum of the ASCII digits 1 to 9. */
  lemma CheckValue()
    ensures Checksum([0x31, 0x32, 0x33, 0x34, 0x35, 0x36, 0x37, 0x38, 0x39]) == 0xcbf4_3926
  {
    assert Step(0xffffffff, 0x31) == 0x7c231048;
    assert Step(0x7c231048, 0x32) == 0xb0acbb32;
    assert Step(0xb0acbb32, 0x33) == 0x77b79c2d;
    assert Step(0x77b79c2d, 0x34) == 0x641c1f5c;
    assert Step(0x641c1f5c, 0x35) == 0x340ac5e3;
    assert Step(0x340ac5e3, 0x36) == 0xf68d2c9e;
    assert Step(0xf68d2c9e, 0x37) == 0xaffc9660;
    assert Step(0xaffc9660, 0x38) == 0x651f2550;
    assert Step(0x651f2550, 0x39) == 0x340bc6d9;
  }

  /** These four bytes have the signature of a ZIP data descriptor as their checksum. */
  lemma SignatureIsChecksum()
    ensures Checksum([0xac, 0x0a, 0x7a, 0xd5]) == 0x0807_4b50
  {
    assert Step(0xffffffff, 0xac) == 0xf29dffb1;
    assert Step(0xf29dffb1, 0x0a) == 0x5c41f7fb;
    assert Step(0x5c41f7fb, 0x7a) == 0x9ae3f241;
    assert Step(0x9ae3f241, 0xd5) == 0xf7f8b4af;
  }
}
