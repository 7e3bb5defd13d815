/** Bytes, machine integers and the small amount of arithmetic every other module shares. */
module Bytes {
  type byte = x: int | 0 <= x < 0x100
  type u16 = x: int | 0 <= x < 0x1_0000
  type u32 = x: int | 0 <= x < 0x1_0000_0000
  type u64 = x: int | 0 <= x < 0x1_0000_0000_0000_0000

  datatype Option<+T> = None | Some(value: T)

  function Min(a: int, b: int): int { if a < b then a else b }

  function Max(a: int, b: int): int { if a < b then b else a }

  function Pow2(n: nat): (r: nat)
    ensures r > 0
  {
    if n == 0 then 1 else 2 * Pow2(n - 1)
  }

  /** A logical right shift: halving `k` times. */
  function Shr(v: nat, k: nat): nat {
    if k == 0 then v else Shr(v / 2, k - 1)
  }

  lemma {:induction false} ShrStep(v: nat, k: nat)
    ensures Shr(v, k + 1) == Shr(v, k) / 2
  {
    if k > 0 { ShrStep(v / 2, k - 1); }
  }

  /** The `n` low-order bytes of `v`, least significant first. */
  function LittleEndian(v: nat, n: nat): (r: seq<byte>)
    ensures |r| == n
  {
    if n == 0 then [] else [v % 0x100] + LittleEndian(v / 0x100, n - 1)
  }

  /** The number whose bytes, least significant first, are `b`. */
  function FromLittleEndian(b: seq<byte>): nat {
    if b == [] then 0 else b[0] + 0x100 * FromLittleEndian(b[1..])
  }

  function Pow256(n: nat): (r: nat)
    ensures r > 0
  {
    if n == 0 then 1 else 0x100 * Pow256(n - 1)
  }

  lemma {:induction false} LittleEndianBound(b: seq<byte>)
    ensures FromLittleEndian(b) < Pow256(|b|)
  {
    if b != [] { LittleEndianBound(b[1..]); }
  }

  lemma {:induction false} LittleEndianRoundTrip(v: nat, n: nat)
    requires v < Pow256(n)
    ensures FromLittleEndian(LittleEndian(v, n)) == v
  {
    if n > 0 {
      LittleEndianRoundTrip(v / 0x100, n - 1);
      assert LittleEndian(v, n)[1..] == LittleEndian(v / 0x100, n - 1);
    }
  }

  lemma {:induction false} FromLittleEndianRoundTrip(b: seq<byte>)
    ensures LittleEndian(FromLittleEndian(b), |b|) == b
  {
    if b != [] {
      FromLittleEndianRoundTrip(b[1..]);
      LittleEndianNext(b[0], FromLittleEndian(b[1..]), |b| - 1);
    }
  }

  lemma LittleEndianNext(x: byte, rest: nat, n: nat)
    ensures LittleEndian(x + 0x100 * rest, n + 1) == [x] + LittleEndian(rest, n)
  {
    var v := x + 0x100 * rest;
    assert v % 0x100 == x && v / 0x100 == rest;
  }

  lemma Pow256Values()
    ensures Pow256(4) == 0x1_0000_0000 && Pow256(8) == 0x1_0000_0000_0000_0000
  {
    assert Pow256(4) == 0x100 * (0x100 * (0x100 * (0x100 * Pow256(0))));
    assert Pow256(8) == 0x100 * (0x100 * (0x100 * (0x100 * Pow256(4))));
  }

  lemma SliceSlice<T>(b: seq<T>, at: nat, n: nat, i: nat, j: nat)
    requires at + n <= |b| && i <= j <= n
    ensures b[at..at + n][i..j] == b[at + i..at + j]
  {
    var w, x, y := b[at..at + n], b[at..at + n][i..j], b[at + i..at + j];
    assert forall k | 0 <= k < j - i :: x[k] == w[i + k] == b[at + i + k] == y[k];
  }

  /** Appends the `width` low-order bytes of `value`, least significant first. */
  method AppendScalar(bytes: seq<byte>, value: nat, width: nat) returns (r: seq<byte>)
    ensures r == bytes + LittleEndian(value, width)
  {
    r := bytes;
    var left := value;
    for i := 0 to width
      invariant r + LittleEndian(left, width - i) == bytes + LittleEndian(value, width)
    {
      assert LittleEndian(left, width - i) == [left % 0x100] + LittleEndian(left / 0x100, width - i - 1);
      r := r + [left % 0x100];
      left := left / 0x100;
    }
  }

  lemma {:induction false} FromLittleEndianSnoc(b: seq<byte>, x: byte)
    ensures FromLittleEndian(b + [x]) == FromLittleEndian(b) + Pow256(|b|) * x
  {
    if b == [] {
      assert ([] + [x])[1..] == [];
    } else {
      FromLittleEndianSnoc(b[1..], x);
      assert (b + [x])[1..] == b[1..] + [x];
      assert Pow256(|b|) * x == 0x100 * (Pow256(|b| - 1) * x);
    }
  }

  /** The number written at `at` in `width` bytes, least significant first. */
  method ReadScalar(bytes: seq<byte>, at: nat, width: nat) returns (value: nat)
    requires at + width <= |bytes|
    ensures value == FromLittleEndian(bytes[at..at + width])
  {
    value := 0;
    var unit: nat := 1;
    for i := 0 to width
      invariant unit == Pow256(i) && value == FromLittleEndian(bytes[at..at + i])
    {
      FromLittleEndianSnoc(bytes[at..at + i], bytes[at + i]);
      assert bytes[at..at + i + 1] == bytes[at..at + i] + [bytes[at + i]];
      value := value + unit * bytes[at + i];
      unit := 0x100 * unit;
    }
  }

  lemma {:induction false} SubsetSize<T>(a: set<T>, b: set<T>)
    requires a <= b
    ensures |a| <= |b|
  {
    if a != {} {
      var x :| x in a;
      SubsetSize(a - {x}, b - {x});
    }
  }

  function U64At(b: seq<byte>, at: nat): u64
    requires at + 8 <= |b|
  {
    LittleEndianBound(b[at..at + 8]);
    Pow256Values();
    FromLittleEndian(b[at..at + 8])
  }

  lemma U64Stands(b: seq<byte>, at: nat)
    requires at + 8 <= |b|
    ensures LittleEndian(U64At(b, at), 8) == b[at..at + 8]
  {
    hide LittleEndian, FromLittleEndian;
    FromLittleEndianRoundTrip(b[at..at + 8]);
  }

  lemma U64AtWire(b: seq<byte>, at: nat, v: u64)
    requires at + 8 <= |b| && b[at..at + 8] == LittleEndian(v, 8)
    ensures U64At(b, at) == v
  {
    hide LittleEndian, FromLittleEndian;
    Pow256Values();
    LittleEndianRoundTrip(v, 8);
  }
}
