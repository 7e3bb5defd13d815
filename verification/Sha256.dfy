/** SHA-256: the streaming implementation against the definition of sections 4 to 6 of FIPS 180-4. */
module Sha256 {
  import opened Bytes

  type Word = bv32

  // ---- functions and constants (section 4) ---------------------------------------------------

  function Rotr(x: Word, n: Word): Word
    requires n <= 32
  {
    (x >> n) | (x << (32 - n))
  }

  function Ch(x: Word, y: Word, z: Word): Word { (x & y) ^ ((!x) & z) }
  function Maj(x: Word, y: Word, z: Word): Word { (x & y) ^ (x & z) ^ (y & z) }
  function BigSigma0(x: Word): Word { Rotr(x, 2) ^ Rotr(x, 13) ^ Rotr(x, 22) }
  function BigSigma1(x: Word): Word { Rotr(x, 6) ^ Rotr(x, 11) ^ Rotr(x, 25) }
  function SmallSigma0(x: Word): Word { Rotr(x, 7) ^ Rotr(x, 18) ^ (x >> 3) }
  function SmallSigma1(x: Word): Word { Rotr(x, 17) ^ Rotr(x, 19) ^ (x >> 10) }

  /** Addition modulo 2^32. */
  function Add(x: Word, y: Word): Word { x + y }

  /** The round constants, four to a row. */
  const K_ROWS: seq<seq<Word>> := [
    [0x428a2f98, 0x71374491, 0xb5c0fbcf, 0xe9b5dba5], [0x3956c25b, 0x59f111f1, 0x923f82a4, 0xab1c5ed5],
    [0xd807aa98, 0x12835b01, 0x243185be, 0x550c7dc3], [0x72be5d74, 0x80deb1fe, 0x9bdc06a7, 0xc19bf174],
    [0xe49b69c1, 0xefbe4786, 0x0fc19dc6, 0x240ca1cc], [0x2de92c6f, 0x4a7484aa, 0x5cb0a9dc, 0x76f988da],
    [0x983e5152, 0xa831c66d, 0xb00327c8, 0xbf597fc7], [0xc6e00bf3, 0xd5a79147, 0x06ca6351, 0x14292967],
    [0x27b70a85, 0x2e1b2138, 0x4d2c6dfc, 0x53380d13], [0x650a7354, 0x766a0abb, 0x81c2c92e, 0x92722c85],
    [0xa2bfe8a1, 0xa81a664b, 0xc24b8b70, 0xc76c51a3], [0xd192e819, 0xd6990624, 0xf40e3585, 0x106aa070],
    [0x19a4c116, 0x1e376c08, 0x2748774c, 0x34b0bcb5], [0x391c0cb3, 0x4ed8aa4a, 0x5b9cca4f, 0x682e6ff3],
    [0x748f82ee, 0x78a5636f, 0x84c87814, 0x8cc70208], [0x90befffa, 0xa4506ceb, 0xbef9a3f7, 0xc67178f2]]

  function K(t: nat): Word
    requires t < 64
  {
    K_ROWS[t / 4][t % 4]
  }

  datatype State = State(a: Word, b: Word, c: Word, d: Word, e: Word, f: Word, g: Word, h: Word)

  const H_ROWS: seq<seq<Word>> := [
    [0x6a09e667, 0xbb67ae85, 0x3c6ef372, 0xa54ff53a], [0x510e527f, 0x9b05688c, 0x1f83d9ab, 0x5be0cd19]]

  function H(t: nat): Word
    requires t < 8
  {
    H_ROWS[t / 4][t % 4]
  }

  const INITIAL: State := State(H(0), H(1), H(2), H(3), H(4), H(5), H(6), H(7))

  // ---- bytes and words -----------------------------------------------------------------------

  function Load8(b: byte): bv8 { b as bv8 }
  function Widen(b: byte): Word { Load8(b) as Word }

  function LoadBigEndian(p: seq<byte>): Word
    requires |p| == 4
  {
    (Widen(p[0]) << 24) | (Widen(p[1]) << 16) | (Widen(p[2]) << 8) | Widen(p[3])
  }

  function StoreBigEndian(v: Word): (r: seq<byte>)
    ensures |r| == 4
  {
    [((v >> 24) & 0xff) as bv8 as int, ((v >> 16) & 0xff) as bv8 as int, ((v >> 8) & 0xff) as bv8 as int,
     (v & 0xff) as bv8 as int]
  }

  // ---- padding (section 5.1.1) ---------------------------------------------------------------

  /** The eight bytes of a 64-bit number, most significant first. */
  function BigEndian64(n: nat): (r: seq<byte>)
    ensures |r| == 8
  {
    seq(8, i requires 0 <= i < 8 => Shr(n, (7 - i) * 8) % 0x100)
  }

  function Zeros(n: nat): (r: seq<byte>)
    ensures |r| == n
  {
    seq(n, _ => 0)
  }

  /** The smallest number of zero bytes that makes the padded length a multiple of 64. */
  function ZeroCount(length: nat): nat { (119 - length % 64) % 64 }

  /** The length field; the standard only admits messages of fewer than 2^64 bits. */
  function BitLength(length: nat): nat { (8 * length) % 0x1_0000_0000_0000_0000 }

  function Padded(message: seq<byte>): seq<byte> {
    message + [0x80] + Zeros(ZeroCount(|message|)) + BigEndian64(BitLength(|message|))
  }

  /** What is left of a block after the whole blocks decides between one and two final blocks. */
  lemma PaddedSize(length: nat, whole: nat, rest: nat)
    requires length == 64 * whole + rest && rest < 64
    ensures length + 1 + ZeroCount(length) + 8 == 64 * (if rest >= 56 then whole + 2 else whole + 1)
  {
    assert length % 64 == rest;
  }

  lemma PaddedParts(message: seq<byte>)
    ensures |Padded(message)| == |message| + 1 + ZeroCount(|message|) + 8
  {
    hide ZeroCount, BitLength, BigEndian64;
  }

  lemma PaddedLength(message: seq<byte>)
    ensures |Padded(message)| % 64 == 0
  {
    hide Padded, ZeroCount;
    PaddedParts(message);
    PaddedSize(|message|, |message| / 64, |message| % 64);
  }

  lemma ZeroCountLeast(length: nat, k: nat)
    requires k < ZeroCount(length)
    ensures (length + 1 + k + 8) % 64 != 0
  {
  }

  // ---- compression (section 6.2.2) -----------------------------------------------------------

  /** The message schedule; the order of the four terms is immaterial modulo 2^32. */
  function Schedule(block: seq<byte>, t: nat): Word
    requires |block| == 64 && t < 64
  {
    if t < 16 then LoadBigEndian(block[4 * t..4 * t + 4])
    else
      Add(Add(Add(Schedule(block, t - 16), SmallSigma0(Schedule(block, t - 15))), Schedule(block, t - 7)),
          SmallSigma1(Schedule(block, t - 2)))
  }

  function Round(s: State, k: Word, w: Word): State {
    var t1 := Add(Add(Add(Add(s.h, BigSigma1(s.e)), Ch(s.e, s.f, s.g)), k), w);
    var t2 := Add(BigSigma0(s.a), Maj(s.a, s.b, s.c));
    State(Add(t1, t2), s.a, s.b, s.c, Add(s.d, t1), s.e, s.f, s.g)
  }

  /** The working variables after `t` rounds. */
  function Rounds(s: State, block: seq<byte>, t: nat): State
    requires |block| == 64 && t <= 64
  {
    if t == 0 then s else Round(Rounds(s, block, t - 1), K(t - 1), Schedule(block, t - 1))
  }

  function Sum(s: State, r: State): State {
    State(Add(s.a, r.a), Add(s.b, r.b), Add(s.c, r.c), Add(s.d, r.d),
          Add(s.e, r.e), Add(s.f, r.f), Add(s.g, r.g), Add(s.h, r.h))
  }

  function Compress(s: State, block: seq<byte>): State
    requires |block| == 64
  {
    Sum(s, Rounds(s, block, 64))
  }

  /** The hash value after the first `n` blocks. */
  function Fold(padded: seq<byte>, n: nat): State
    requires 64 * n <= |padded|
  {
    if n == 0 then INITIAL else Compress(Fold(padded, n - 1), padded[64 * (n - 1)..64 * n])
  }

  function DigestOf(s: State): (r: seq<byte>)
    ensures |r| == 32
  {
    StoreBigEndian(s.a) + StoreBigEndian(s.b) + StoreBigEndian(s.c) + StoreBigEndian(s.d)
    + StoreBigEndian(s.e) + StoreBigEndian(s.f) + StoreBigEndian(s.g) + StoreBigEndian(s.h)
  }

  /** SHA-256 as the standard defines it: compression folded over the padded message. */
  function Hash(message: seq<byte>): (r: seq<byte>)
    ensures |r| == 32
  {
    PaddedLength(message);
    DigestOf(Fold(Padded(message), |Padded(message)| / 64))
  }

  // ---- the implementation --------------------------------------------------------------------

  /** Fills the schedule array from one 64-byte chunk. */
  method Expand(chunk: seq<byte>, w: array<Word>)
    requires |chunk| == 64 && w.Length == 64
    modifies w
    ensures forall t | 0 <= t < 64 :: w[t] == Schedule(chunk, t)
  {
    hide LoadBigEndian, Add, SmallSigma0, SmallSigma1;
    for i := 0 to 16
      invariant forall t | 0 <= t < i :: w[t] == Schedule(chunk, t)
    {
      w[i] := LoadBigEndian(chunk[i * 4..i * 4 + 4]);
    }
    for i := 16 to 64
      invariant forall t | 0 <= t < i :: w[t] == Schedule(chunk, t)
    {
      var s0 := SmallSigma0(w[i - 15]);
      var s1 := SmallSigma1(w[i - 2]);
      w[i] := Add(Add(Add(w[i - 16], s0), w[i - 7]), s1);
    }
  }

  /** Compresses one 64-byte chunk into the running hash value. */
  method Process(h: State, chunk: seq<byte>, w: array<Word>) returns (r: State)
    requires |chunk| == 64 && w.Length == 64
    modifies w
    ensures r == Compress(h, chunk)
  {
    Expand(chunk, w);
    hide Schedule, Add, BigSigma0, BigSigma1, Ch, Maj;
    var a, b, c, d := h.a, h.b, h.c, h.d;
    var e, f, g, hh := h.e, h.f, h.g, h.h;
    for i := 0 to 64
      invariant State(a, b, c, d, e, f, g, hh) == Rounds(h, chunk, i)
    {
      var s1 := BigSigma1(e);
      var ch := Ch(e, f, g);
      var temp1 := Add(Add(Add(Add(hh, s1), ch), K(i)), w[i]);
      var s0 := BigSigma0(a);
      var maj := Maj(a, b, c);
      var temp2 := Add(s0, maj);
      hh := g;
      g := f;
      f := e;
      e := Add(d, temp1);
      d := c;
      c := b;
      b := a;
      a := Add(temp1, temp2);
    }
    r := State(Add(h.a, a), Add(h.b, b), Add(h.c, c), Add(h.d, d), Add(h.e, e), Add(h.f, f), Add(h.g, g), Add(h.h, hh));
  }

  /** The rest of the message followed by the marker bit fills the block from the front. */
  ghost predicate HoldsTail(data: seq<byte>, offset: nat, block: seq<byte>) {
    && offset <= |data| < offset + 64 && |block| == 64
    && (forall i | 0 <= i < |data| - offset :: block[i] == data[offset + i])
    && block[|data| - offset] == 0x80
    && forall i | |data| - offset < i < 64 :: block[i] == 0
  }

  /** A tail of 56 bytes or more leaves no room for the length: it becomes a block of its own. */
  lemma FullTail(data: seq<byte>, offset: nat, block: seq<byte>)
    requires offset % 64 == 0 && HoldsTail(data, offset, block) && |data| - offset >= 56
    ensures |Padded(data)| == offset + 128 && Padded(data)[offset..offset + 64] == block
  {
    PaddedSize(|data|, offset / 64, |data| - offset);
    hide BigEndian64, BitLength, ZeroCount;
  }

  /** The last block ends in the length; before it comes the tail, unless that already had its own block. */
  lemma LastBlock(data: seq<byte>, offset: nat, block: seq<byte>, last: seq<byte>)
    requires offset % 64 == 0 && HoldsTail(data, offset, block) && |last| == 64
    requires last[56..] == BigEndian64(BitLength(|data|))
    requires last[..56] == if |data| - offset >= 56 then Zeros(56) else block[..56]
    ensures var n := |Padded(data)|;
      n == (if |data| - offset >= 56 then offset + 128 else offset + 64) && Padded(data)[n - 64..n] == last
  {
    PaddedSize(|data|, offset / 64, |data| - offset);
    hide BigEndian64, BitLength, ZeroCount;
    var padded := Padded(data);
    var n := |padded|;
    assert padded[n - 64..n][56..] == padded[n - 8..n] == last[56..];
    assert padded[n - 64..n][..56] == padded[n - 64..n - 8];
    assert padded[n - 64..n - 8] == last[..56] by {
      forall i | 0 <= i < 56
        ensures padded[n - 64 + i] == last[..56][i]
      {
        if |data| - offset < 56 { assert last[..56][i] == block[i]; }
      }
    }
    assert last == last[..56] + last[56..];
    assert padded[n - 64..n] == padded[n - 64..n][..56] + padded[n - 64..n][56..];
  }

  /** Writes the length into the last eight bytes. */
  method StoreLength(block: array<byte>, bitLength: nat)
    requires block.Length == 64
    modifies block
    ensures block[..56] == old(block[..56]) && block[56..] == BigEndian64(bitLength)
  {
    ghost var before := block[..];
    for i := 0 to 8
      invariant forall j | 0 <= j < 56 :: block[j] == before[j]
      invariant forall j | 64 - i <= j < 64 :: block[j] == BigEndian64(bitLength)[j - 56]
    {
      block[63 - i] := Shr(bitLength, i * 8) % 0x100;
    }
    assert before[..56] == old(block[..56]);
  }

  /** Copies the tail into a zeroed block and marks its end. */
  method CopyTail(data: seq<byte>, offset: nat) returns (block: array<byte>)
    requires offset <= |data| < offset + 64
    ensures fresh(block) && HoldsTail(data, offset, block[..])
  {
    block := new byte[64](_ => 0);
    var remaining := |data| - offset;
    forall i | 0 <= i < remaining { block[i] := data[offset + i]; }
    block[remaining] := 0x80;
  }

  method Clear(block: array<byte>)
    requires block.Length == 64
    modifies block
    ensures block[..56] == Zeros(56)
  {
    forall i | 0 <= i < 64 { block[i] := 0; }
  }

  /** Processes what is left after the whole blocks: one block, or two if the length does not fit. */
  method Finish(data: seq<byte>, offset: nat, start: State, w: array<Word>) returns (h: State)
    requires offset <= |data| < offset + 64 && offset % 64 == 0 && w.Length == 64
    requires start == Fold(Padded(data), offset / 64)
    modifies w
    ensures h == Fold(Padded(data), |Padded(data)| / 64)
  {
    hide H, Compress, BigEndian64, BitLength, Padded, Zeros, Fold, HoldsTail;
    h := start;
    var block := CopyTail(data, offset);
    ghost var tail := block[..];
    assert |tail| == 64 && tail[..56] == block[..56] by { TailSize(data, offset, tail); }
    if |data| - offset >= 56 {
      FullTail(data, offset, tail);
      FoldNext(Padded(data), offset / 64);
      h := Process(h, block[..], w);
      Clear(block);
    }
    StoreLength(block, BitLength(|data|));
    assert block[..][..56] == block[..56] && block[..][56..] == block[56..];
    LastBlock(data, offset, tail, block[..]);
    FoldNext(Padded(data), |Padded(data)| / 64 - 1);
    h := Process(h, block[..], w);
  }

  lemma TailSize(data: seq<byte>, offset: nat, block: seq<byte>)
    requires HoldsTail(data, offset, block)
    ensures |block| == 64
  {
  }

  lemma FoldNext(padded: seq<byte>, n: nat)
    requires 64 * (n + 1) <= |padded|
    ensures Fold(padded, n + 1) == Compress(Fold(padded, n), padded[64 * n..64 * n + 64])
  {
    hide Compress;
  }

  /** The streaming hash equals the standard's definition for every message. */
  method Compute(data: seq<byte>) returns (digest: seq<byte>)
    ensures digest == Hash(data)
  {
    hide H, Compress, DigestOf, BigEndian64, BitLength;
    ghost var padded := Padded(data);
    var h := INITIAL;
    var w := new Word[64](_ => 0);
    var offset := 0;
    while |data| - offset >= 64
      invariant offset <= |data| && offset % 64 == 0
      invariant h == Fold(padded, offset / 64)
    {
      assert padded[offset..offset + 64] == data[offset..offset + 64];
      h := Process(h, data[offset..offset + 64], w);
      offset := offset + 64;
    }
    h := Finish(data, offset, h, w);
    digest := DigestOf(h);
  }

  // ---- comparison ----------------------------------------------------------------------------

  function Xor8(a: bv8, b: bv8): bv8 { a ^ b }
  function Or8(a: bv8, b: bv8): bv8 { a | b }
  function Up8(a: bv8): bv8 { a << 1 }
  function Unit8(b: bool): bv8 { if b then 1 else 0 }

  lemma OrZero(a: bv8, b: bv8)
    ensures Or8(a, b) == 0 <==> a == 0 && b == 0
  {
  }

  lemma XorSelf(a: bv8)
    ensures Xor8(a, a) == 0
  {
  }

  lemma HalfByte(a: byte)
    ensures Load8(a) == Xor8(Unit8(a % 2 == 1), Up8(Load8(a / 2)))
    ensures a < 128 ==> Load8(a) < 128
  {
    assert (a as bv8) == ((a % 2) as bv8) ^ (((a / 2) as bv8) << 1);
  }

  lemma LowBit(p: bool, q: bool, x: bv8, y: bv8)
    requires x < 128 && y < 128 && Xor8(Xor8(Unit8(p), Up8(x)), Xor8(Unit8(q), Up8(y))) == 0
    ensures p == q && Xor8(x, y) == 0
  {
  }

  lemma {:induction false} SameByte(a: byte, b: byte)
    requires Xor8(Load8(a), Load8(b)) == 0
    ensures a == b
    decreases a + b
  {
    hide Xor8, Load8, Up8, Unit8;
    if a != 0 || b != 0 {
      HalfByte(a);
      HalfByte(b);
      HalfByte(a / 2);
      HalfByte(b / 2);
      LowBit(a % 2 == 1, b % 2 == 1, Load8(a / 2), Load8(b / 2));
      SameByte(a / 2, b / 2);
    }
  }

  lemma XorZero(a: byte, b: byte)
    ensures Xor8(Load8(a), Load8(b)) == 0 <==> a == b
  {
    hide Xor8, Load8;
    XorSelf(Load8(a));
    if Xor8(Load8(a), Load8(b)) == 0 { SameByte(a, b); }
  }

  /** Comparing all bytes without stopping early decides equality. */
  method ConstantTimeEqual(a: seq<byte>, b: seq<byte>) returns (equal: bool)
    requires |a| == |b| == 32
    ensures equal <==> a == b
  {
    hide Xor8, Load8, Or8;
    var diff: bv8 := 0;
    for i := 0 to 32
      invariant diff == 0 <==> a[..i] == b[..i]
    {
      var difference := Xor8(Load8(a[i]), Load8(b[i]));
      OrZero(diff, difference);
      XorZero(a[i], b[i]);
      assert a[..i + 1] == a[..i] + [a[i]] && b[..i + 1] == b[..i] + [b[i]];
      diff := Or8(diff, difference);
    }
    assert a[..32] == a && b[..32] == b;
    return diff == 0;
  }
}
