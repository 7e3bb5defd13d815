/** Bit strings in the order DEFLATE reads them, and the reader that walks them. */
module BitStream {
  import opened Bytes

  // ---- the bits of a byte string -------------------------------------------------------------

  predicate BitOf(b: byte, i: nat) { Shr(b, i) % 2 == 1 }

  /** All bits of `data`, least significant bit of each byte first. */
  function BitsOf(data: seq<byte>): (r: seq<bool>)
    ensures |r| == 8 * |data|
  {
    seq(8 * |data|, i requires 0 <= i < 8 * |data| => BitOf(data[i / 8], i % 8))
  }

  function Bit(b: bool): nat { if b then 1 else 0 }

  lemma DigitIsBit(data: seq<byte>, i: nat)
    requires i < 8 * |data|
    ensures Shr(data[i / 8], i % 8) % 2 == Bit(BitsOf(data)[i])
  {
  }

  /** The number whose binary digits, least significant first, are `b`. */
  function Value(b: seq<bool>): nat {
    if b == [] then 0 else Bit(b[0]) + 2 * Value(b[1..])
  }

  /** The `n` low-order binary digits of `v`, least significant first. */
  function Digits(v: nat, n: nat): (r: seq<bool>)
    ensures |r| == n
  {
    if n == 0 then [] else [v % 2 == 1] + Digits(v / 2, n - 1)
  }

  /** The `n` low-order binary digits of `v`, most significant first: how a Huffman code is sent. */
  function MsbFirst(v: nat, n: nat): (r: seq<bool>)
    ensures |r| == n
  {
    if n == 0 then [] else MsbFirst(v / 2, n - 1) + [v % 2 == 1]
  }

  lemma {:induction false} ValueBound(b: seq<bool>)
    ensures Value(b) < Pow2(|b|)
  {
    if b != [] { ValueBound(b[1..]); }
  }

  lemma {:induction false} ValueOfDigits(v: nat, n: nat)
    requires v < Pow2(n)
    ensures Value(Digits(v, n)) == v
  {
    if n > 0 {
      ValueOfDigits(v / 2, n - 1);
      assert Digits(v, n)[1..] == Digits(v / 2, n - 1);
    }
  }

  lemma {:induction false} DigitsOfValue(b: seq<bool>)
    ensures Digits(Value(b), |b|) == b
  {
    if b != [] {
      DigitsOfValue(b[1..]);
      DigitsNext(b[0], Value(b[1..]), |b| - 1);
    }
  }

  lemma DigitsNext(x: bool, rest: nat, n: nat)
    ensures Digits(Bit(x) + 2 * rest, n + 1) == [x] + Digits(rest, n)
  {
    var v := Bit(x) + 2 * rest;
    assert v % 2 == Bit(x) && v / 2 == rest;
  }

  lemma {:induction false} DigitAt(v: nat, n: nat, i: nat)
    requires i < n
    ensures Digits(v, n)[i] == (Shr(v, i) % 2 == 1)
  {
    if i > 0 { DigitAt(v / 2, n - 1, i - 1); }
  }

  lemma {:induction false} ValueSnoc(b: seq<bool>, x: bool)
    ensures Value(b + [x]) == Value(b) + Bit(x) * Pow2(|b|)
  {
    if b == [] {
      assert ([] + [x])[1..] == [];
    } else {
      ValueSnoc(b[1..], x);
      assert (b + [x])[1..] == b[1..] + [x];
    }
  }

  /** Reading one more bit of a window. */
  lemma ValueNext(bits: seq<bool>, pos: nat, n: nat)
    requires pos + n < |bits|
    ensures Value(bits[pos..pos + n + 1]) == Value(bits[pos..pos + n]) + Bit(bits[pos + n]) * Pow2(n)
  {
    ValueSnoc(bits[pos..pos + n], bits[pos + n]);
    assert bits[pos..pos + n] + [bits[pos + n]] == bits[pos..pos + n + 1];
  }

  lemma NextDigit(data: seq<byte>, pos: nat, n: nat)
    requires pos + n < 8 * |data|
    ensures (pos + n) / 8 < |data|
    ensures var bits := BitsOf(data);
      Value(bits[pos..pos + n + 1])
        == Value(bits[pos..pos + n]) + Shr(data[(pos + n) / 8], (pos + n) % 8) % 2 * Pow2(n)
  {
    hide Value, BitsOf, Shr, Pow2;
    DigitIsBit(data, pos + n);
    ValueNext(BitsOf(data), pos, n);
  }

  lemma ValueInjective(a: seq<bool>, b: seq<bool>)
    requires |a| == |b| && Value(a) == Value(b)
    ensures a == b
  {
    DigitsOfValue(a);
    DigitsOfValue(b);
  }

  // ---- words at a position -------------------------------------------------------------------

  /** The bit string `w` occurs in `bits` at position `pos`. */
  predicate At(bits: seq<bool>, pos: nat, w: seq<bool>) {
    pos + |w| <= |bits| && bits[pos..pos + |w|] == w
  }

  lemma AtConcat(bits: seq<bool>, pos: nat, a: seq<bool>, b: seq<bool>)
    ensures At(bits, pos, a + b) <==> At(bits, pos, a) && At(bits, pos + |a|, b)
  {
    if pos + |a| + |b| <= |bits| {
      var w := bits[pos..pos + |a| + |b|];
      assert w[..|a|] == bits[pos..pos + |a|];
      assert w[|a|..] == bits[pos + |a|..pos + |a| + |b|];
      assert w == w[..|a|] + w[|a|..];
      assert (a + b)[..|a|] == a && (a + b)[|a|..] == b;
    }
  }

  /** What reading an `n`-bit field at `pos` yields; the reader refuses fields wider than 24 bits. */
  function Field(bits: seq<bool>, pos: nat, n: nat): Option<nat> {
    if n > 24 || pos + n > |bits| then None else Some(Value(bits[pos..pos + n]))
  }

  lemma FieldReads(bits: seq<bool>, pos: nat, n: nat)
    requires n <= 24 && pos + n <= |bits|
    ensures Field(bits, pos, n) == Some(Value(bits[pos..pos + n]))
  {
    hide Value;
  }

  /** A field reads as `v` exactly where the digits of `v` stand in the stream. */
  lemma {:induction false} FieldAt(bits: seq<bool>, pos: nat, n: nat, v: nat)
    requires n <= 24
    ensures Field(bits, pos, n) == Some(v) <==> v < Pow2(n) && At(bits, pos, Digits(v, n))
  {
    if pos + n <= |bits| {
      var w := bits[pos..pos + n];
      if Value(w) == v {
        ValueBound(w);
        DigitsOfValue(w);
      }
      if v < Pow2(n) && Digits(v, n) == w {
        ValueOfDigits(v, n);
      }
    }
  }

  // ---- packing bits back into bytes ----------------------------------------------------------

  /** The bytes that hold `bits`, the last one filled up with zero bits. */
  function Pack(bits: seq<bool>): (r: seq<byte>)
    ensures |r| == (|bits| + 7) / 8
    decreases |bits|
  {
    if bits == [] then []
    else
      var head := if |bits| < 8 then bits else bits[..8];
      ValueBound(head);
      Pow2Mono(|head|, 8);
      [Value(head)] + Pack(if |bits| < 8 then [] else bits[8..])
  }

  lemma {:induction false} Pow2Mono(a: nat, b: nat)
    requires a <= b
    ensures Pow2(a) <= Pow2(b)
    ensures b == 8 ==> Pow2(b) == 256
  {
    if b > 0 && a < b { Pow2Mono(a, b - 1); }
    assert Pow2(8) == 2 * (2 * (2 * (2 * Pow2(4))));
    assert Pow2(4) == 16;
  }

  lemma {:induction false} BitOfValue(b: seq<bool>, i: nat)
    ensures (Shr(Value(b), i) % 2 == 1) == (i < |b| && b[i])
  {
    if b == [] {
      ShrZero(i);
    } else {
      BitAt(b[0], Value(b[1..]), i);
      if i > 0 { BitOfValue(b[1..], i - 1); }
    }
  }

  lemma BitAt(x: bool, rest: nat, i: nat)
    ensures i == 0 ==> (Shr(Bit(x) + 2 * rest, i) % 2 == 1) == x
    ensures i > 0 ==> Shr(Bit(x) + 2 * rest, i) == Shr(rest, i - 1)
  {
    var v := Bit(x) + 2 * rest;
    assert v % 2 == Bit(x) && v / 2 == rest;
  }

  lemma {:induction false} ShrZero(i: nat)
    ensures Shr(0, i) == 0
  {
    if i > 0 { ShrZero(i - 1); }
  }

  lemma {:induction false} PackBit(bits: seq<bool>, i: nat)
    requires i < |bits|
    ensures BitOf(Pack(bits)[i / 8], i % 8) == bits[i]
    decreases |bits|
  {
    var head := if |bits| < 8 then bits else bits[..8];
    if i < 8 {
      BitOfValue(head, i);
      assert Pack(bits)[0] == Value(head);
    } else {
      PackBit(bits[8..], i - 8);
      assert Pack(bits)[i / 8] == Pack(bits[8..])[(i - 8) / 8];
    }
  }

  /** Packing loses nothing: the bits come back, followed by fewer than eight zero bits. */
  lemma {:induction false} PackRoundTrip(bits: seq<bool>)
    ensures At(BitsOf(Pack(bits)), 0, bits)
  {
    forall i | 0 <= i < |bits|
      ensures BitsOf(Pack(bits))[i] == bits[i]
    {
      PackBit(bits, i);
    }
    assert BitsOf(Pack(bits))[0..|bits|] == bits;
  }

  // ---- the reader ----------------------------------------------------------------------------

  /** The least multiple of eight that is not below `pos`. */
  function AlignUp(pos: nat): (r: nat)
    ensures r % 8 == 0 && pos <= r < pos + 8
  {
    (pos + 7) / 8 * 8
  }

  class BitReader {
    const input: seq<byte>
    var bit: nat

    ghost predicate Valid()
      reads this
    {
      bit <= 8 * |input|
    }

    constructor (input: seq<byte>)
      ensures Valid() && this.input == input && bit == 0
    {
      this.input := input;
      bit := 0;
    }

    method Read(count: nat) returns (r: Option<nat>)
      requires Valid()
      modifies this
      ensures Valid()
      ensures r == Field(BitsOf(input), old(bit), count)
      ensures bit == if r.Some? then old(bit) + count else old(bit)
    {
      if count > 24 || bit + count > |input| * 8 {
        return None;
      }
      ghost var bits := BitsOf(input);
      var value := 0;
      assert Value(bits[bit..bit]) == 0;
      hide Value, Shr, Pow2, BitsOf, Field;
      FieldReads(bits, bit, count);
      for index := 0 to count
        invariant bit == old(bit) && bit + count <= |bits|
        invariant value == Value(bits[bit..bit + index])
      {
        NextDigit(input, bit, index);
        var digit := Shr(input[(bit + index) / 8], (bit + index) % 8) % 2;
        // the new bit lies above every bit read so far, so the source's OR is an addition
        value := value + digit * Pow2(index);
      }
      bit := bit + count;
      return Some(value);
    }

    method Align()
      requires Valid()
      modifies this
      ensures Valid() && bit % 8 == 0 && old(bit) <= bit < old(bit) + 8
      ensures bit == AlignUp(old(bit))
    {
      bit := (bit + 7) / 8 * 8;
    }

    function ByteOffset(): nat
      reads this
    {
      (bit + 7) / 8
    }
  }
}
