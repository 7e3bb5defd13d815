/** Canonical Huffman codes (section 3.2.2 of RFC 1951) and the table that decodes them. */
module Huffman {
  import opened Bytes
  import opened BitStream

  const MAX_LENGTH: nat := 15

  // ---- code lengths --------------------------------------------------------------------------

  /** How many symbols have code length `l`. */
  function Count(lengths: seq<nat>, l: nat): (n: nat)
    ensures n <= |lengths|
  {
    if lengths == [] then 0
    else
      var last := |lengths| - 1;
      Count(lengths[..last], l) + (if lengths[last] == l then 1 else 0)
  }

  /** Codes still free once every code of length at most `l` has been handed out. */
  function Available(lengths: seq<nat>, l: nat): int {
    if l == 0 then 1 else Available(lengths, l - 1) * 2 - Count(lengths, l)
  }

  predicate Used(lengths: seq<nat>, s: nat) { s < |lengths| && lengths[s] != 0 }

  /** The length vectors the decoder accepts: short enough, not over-subscribed, not empty. */
  ghost predicate Accepted(lengths: seq<nat>) {
    && (forall s | 0 <= s < |lengths| :: lengths[s] <= MAX_LENGTH)
    && (forall l | 1 <= l <= MAX_LENGTH :: Available(lengths, l) >= 0)
    && (exists s: nat :: Used(lengths, s))
  }

  /** The share of the code space, in units of 2^-15, that the codes of `lengths` take up. */
  function KraftSum(lengths: seq<nat>): nat {
    if lengths == [] then 0
    else
      var last := |lengths| - 1;
      KraftSum(lengths[..last]) +
      (if lengths[last] == 0 || lengths[last] > MAX_LENGTH then 0 else Pow2(MAX_LENGTH - lengths[last]))
  }

  /** As KraftSum, but only for lengths up to `l` and in units of 2^-l. */
  function KraftUpTo(lengths: seq<nat>, l: nat): nat {
    if lengths == [] then 0
    else
      var last := |lengths| - 1;
      KraftUpTo(lengths[..last], l) +
      (if lengths[last] == 0 || lengths[last] > l then 0 else Pow2(l - lengths[last]))
  }

  lemma {:induction false} KraftUpToStep(lengths: seq<nat>, l: nat)
    ensures KraftUpTo(lengths, l + 1) == 2 * KraftUpTo(lengths, l) + Count(lengths, l + 1)
  {
    if lengths != [] {
      KraftUpToStep(lengths[..|lengths| - 1], l);
      var x := lengths[|lengths| - 1];
      if 0 < x <= l { assert Pow2(l + 1 - x) == 2 * Pow2(l - x); }
    }
  }

  lemma {:induction false} KraftZero(lengths: seq<nat>)
    ensures KraftUpTo(lengths, 0) == 0
    ensures KraftUpTo(lengths, MAX_LENGTH) == KraftSum(lengths)
  {
    if lengths != [] { KraftZero(lengths[..|lengths| - 1]); }
  }

  lemma {:induction false} AvailableIsSlack(lengths: seq<nat>, l: nat)
    ensures Available(lengths, l) + KraftUpTo(lengths, l) == Pow2(l)
  {
    if l == 0 {
      KraftZero(lengths);
    } else {
      AvailableIsSlack(lengths, l - 1);
      KraftUpToStep(lengths, l - 1);
    }
  }

  lemma {:induction false} ShortageStays(lengths: seq<nat>, l: nat, m: nat)
    requires l <= m && Available(lengths, l) < 0
    ensures Available(lengths, m) < 0
  {
    if l < m { ShortageStays(lengths, l, m - 1); }
  }

  /** The step-by-step over-subscription test is exactly Kraft's inequality. */
  lemma {:induction false} AcceptedIffKraft(lengths: seq<nat>)
    ensures Accepted(lengths) <==>
      && (forall s | 0 <= s < |lengths| :: lengths[s] <= MAX_LENGTH)
      && 0 < KraftSum(lengths) <= Pow2(MAX_LENGTH)
  {
    AvailableIsSlack(lengths, MAX_LENGTH);
    KraftZero(lengths);
    KraftPositive(lengths);
    if exists l :: 1 <= l <= MAX_LENGTH && Available(lengths, l) < 0 {
      var l :| 1 <= l <= MAX_LENGTH && Available(lengths, l) < 0;
      ShortageStays(lengths, l, MAX_LENGTH);
    }
  }

  lemma {:induction false} KraftPositive(lengths: seq<nat>)
    ensures (forall s | 0 <= s < |lengths| :: lengths[s] <= MAX_LENGTH) ==>
      (KraftSum(lengths) > 0 <==> exists s: nat :: Used(lengths, s))
  {
    if lengths != [] && forall s | 0 <= s < |lengths| :: lengths[s] <= MAX_LENGTH {
      var last := |lengths| - 1;
      var front := lengths[..last];
      assert forall s | 0 <= s < |front| :: front[s] == lengths[s] <= MAX_LENGTH;
      KraftPositive(front);
      if KraftSum(front) > 0 {
        var s: nat :| Used(front, s);
        assert Used(lengths, s);
      } else if lengths[last] != 0 {
        assert Used(lengths, last);
      }
      if exists s: nat :: Used(lengths, s) {
        var s: nat :| Used(lengths, s);
        if s < last { assert Used(front, s); }
      }
    }
  }

  // ---- canonical codes -----------------------------------------------------------------------

  /** How many codes have length `l`: unused symbols have none. */
  function Codes(lengths: seq<nat>, l: nat): nat { if l == 0 then 0 else Count(lengths, l) }

  /** The smallest code of length `l`. */
  function FirstCode(lengths: seq<nat>, l: nat): nat {
    if l == 0 then 0 else (FirstCode(lengths, l - 1) + Codes(lengths, l - 1)) * 2
  }

  /** Symbol `s` gets the next free code of its length, in symbol order. */
  function Code(lengths: seq<nat>, s: nat): nat
    requires s < |lengths|
  {
    FirstCode(lengths, lengths[s]) + Count(lengths[..s], lengths[s])
  }

  /** The bits by which symbol `s` is sent. */
  function CodeBits(lengths: seq<nat>, s: nat): (r: seq<bool>)
    requires s < |lengths|
    ensures |r| == lengths[s]
  {
    MsbFirst(Code(lengths, s), lengths[s])
  }

  lemma {:induction false} CodeSpace(lengths: seq<nat>, l: nat)
    requires l >= 1
    ensures FirstCode(lengths, l) + Count(lengths, l) + Available(lengths, l) == Pow2(l)
  {
    if l > 1 { CodeSpace(lengths, l - 1); }
  }

  lemma {:induction false} CountPrefix(lengths: seq<nat>, i: nat, l: nat)
    requires i <= |lengths|
    ensures Count(lengths[..i], l) <= Count(lengths, l)
    ensures i < |lengths| && lengths[i] == l ==> Count(lengths[..i], l) < Count(lengths, l)
  {
    if i < |lengths| {
      var last := |lengths| - 1;
      assert lengths[..last][..i] == lengths[..i];
      CountPrefix(lengths[..last], i, l);
    } else {
      assert lengths[..i] == lengths;
    }
  }

  lemma CountSnoc(lengths: seq<nat>, i: nat)
    requires i < |lengths|
    ensures forall l: nat :: Count(lengths[..i + 1], l) == Count(lengths[..i], l) + (if lengths[i] == l then 1 else 0)
  {
    assert lengths[..i + 1][..i] == lengths[..i];
  }

  /** No code overflows its length: the uint16 arithmetic of the table never wraps. */
  lemma CodeFits(lengths: seq<nat>, s: nat)
    requires Accepted(lengths) && Used(lengths, s)
    ensures FirstCode(lengths, lengths[s]) <= Code(lengths, s)
    ensures Code(lengths, s) < FirstCode(lengths, lengths[s]) + Count(lengths, lengths[s]) <= Pow2(lengths[s])
  {
    CodeSpace(lengths, lengths[s]);
    CountPrefix(lengths, s, lengths[s]);
  }

  lemma {:induction false} MsbPrefix(v: nat, n: nat, k: nat)
    ensures MsbFirst(v, n + k)[..n] == MsbFirst(Shr(v, k), n)
  {
    if k == 0 {
      assert MsbFirst(v, n)[..n] == MsbFirst(v, n);
    } else {
      MsbPrefix(v / 2, n, k - 1);
      var front := MsbFirst(v / 2, n + k - 1);
      assert MsbFirst(v, n + k)[..n] == front[..n];
    }
  }

  lemma {:induction false} MsbInjective(v: nat, w: nat, n: nat)
    requires v < Pow2(n) && w < Pow2(n) && MsbFirst(v, n) == MsbFirst(w, n)
    ensures v == w
  {
    if n > 0 {
      var a, b := MsbFirst(v, n), MsbFirst(w, n);
      assert a[..n - 1] == MsbFirst(v / 2, n - 1) && b[..n - 1] == MsbFirst(w / 2, n - 1);
      assert a[n - 1] == (v % 2 == 1) && b[n - 1] == (w % 2 == 1);
      MsbInjective(v / 2, w / 2, n - 1);
    }
  }

  lemma {:induction false} ShrBound(v: nat, k: nat, n: nat)
    requires v < Pow2(n + k)
    ensures Shr(v, k) < Pow2(n)
  {
    if k > 0 { ShrBound(v / 2, k - 1, n); }
  }

  /** Codes of a greater length start beyond every extension of the shorter ones. */
  lemma {:induction false} LongerCodesAreLarger(lengths: seq<nat>, l: nat, k: nat, v: nat)
    requires l >= 1 && k >= 1 && v >= FirstCode(lengths, l + k)
    ensures Shr(v, k) >= FirstCode(lengths, l) + Count(lengths, l)
  {
    if k == 1 {
      assert Shr(v, 1) == v / 2;
    } else {
      LongerCodesAreLarger(lengths, l, k - 1, v / 2);
    }
  }

  lemma {:induction false} SameLengthCodesDiffer(lengths: seq<nat>, s: nat, t: nat)
    requires s < t < |lengths| && lengths[s] == lengths[t]
    ensures Code(lengths, s) < Code(lengths, t)
  {
    assert lengths[..t][..s] == lengths[..s];
    CountPrefix(lengths[..t], s, lengths[s]);
  }

  /** The code is prefix-free: two symbols cannot both stand at the same position. */
  lemma {:induction false} PrefixFree(lengths: seq<nat>, bits: seq<bool>, pos: nat, s: nat, t: nat)
    requires Accepted(lengths) && Used(lengths, s) && Used(lengths, t)
    requires At(bits, pos, CodeBits(lengths, s)) && At(bits, pos, CodeBits(lengths, t))
    ensures s == t
    decreases lengths[s]
  {
    if lengths[s] > lengths[t] {
      PrefixFree(lengths, bits, pos, t, s);
    } else if s != t {
      var n, k := lengths[s], lengths[t] - lengths[s];
      var v, w := Code(lengths, s), Code(lengths, t);
      CodeFits(lengths, s);
      CodeFits(lengths, t);
      ShrBound(w, k, n);
      MsbPrefix(w, n, k);
      assert bits[pos..pos + n + k][..n] == bits[pos..pos + n];
      assert MsbFirst(v, n) == MsbFirst(Shr(w, k), n);
      MsbInjective(v, Shr(w, k), n);
      if k > 0 {
        LongerCodesAreLarger(lengths, n, k, w);
      } else if s < t {
        SameLengthCodesDiffer(lengths, s, t);
      } else {
        SameLengthCodesDiffer(lengths, t, s);
      }
    }
  }

  /** The symbol whose code stands at `pos`, if there is one. */
  ghost function Symbol(lengths: seq<nat>, bits: seq<bool>, pos: nat): (r: Option<nat>)
    ensures r.Some? ==> Used(lengths, r.value) && At(bits, pos, CodeBits(lengths, r.value))
  {
    if exists s: nat :: Used(lengths, s) && At(bits, pos, CodeBits(lengths, s)) then
      var s: nat :| Used(lengths, s) && At(bits, pos, CodeBits(lengths, s));
      Some(s)
    else
      None
  }

  lemma SymbolAt(lengths: seq<nat>, bits: seq<bool>, pos: nat, s: nat)
    requires Accepted(lengths)
    ensures Symbol(lengths, bits, pos) == Some(s) <==> Used(lengths, s) && At(bits, pos, CodeBits(lengths, s))
  {
    if Used(lengths, s) && At(bits, pos, CodeBits(lengths, s)) {
      var t := Symbol(lengths, bits, pos).value;
      PrefixFree(lengths, bits, pos, s, t);
    }
  }

  // ---- the decoding table --------------------------------------------------------------------

  datatype HuffmanCode = HuffmanCode(reversed: nat, symbol: nat, length: nat)

  lemma {:induction false} MsbFromTop(v: nat, n: nat)
    ensures MsbFirst(v, n + 1) == [Shr(v, n) % 2 == 1] + MsbFirst(v, n)
  {
    if n > 0 {
      MsbFromTop(v / 2, n - 1);
      assert MsbFirst(v, n + 1) == MsbFirst(v / 2, n) + [v % 2 == 1];
    } else {
      assert MsbFirst(v, 1) == MsbFirst(v / 2, 0) + [v % 2 == 1];
    }
  }

  /** Reverses the low `length` bits of a code so that it can be compared with bits as they arrive. */
  method Reverse(canonical: nat, length: nat) returns (reversed: nat)
    requires length <= MAX_LENGTH
    ensures reversed == Value(MsbFirst(canonical, length))
    ensures reversed < Pow2(length)
  {
    reversed := 0;
    for bit := 0 to length
      invariant reversed == Value(MsbFirst(canonical, bit)) < Pow2(bit)
    {
      MsbFromTop(canonical, bit);
      assert MsbFirst(canonical, bit + 1)[1..] == MsbFirst(canonical, bit);
      ValueBound(MsbFirst(canonical, bit + 1));
      reversed := reversed * 2 + Shr(canonical, bit) % 2;
    }
  }

  lemma Pow2At15(n: nat)
    requires n <= 15
    ensures Pow2(n) <= 32768
  {
    Pow2Mono(8, 8);
    assert Pow2(15) == 2 * (2 * (2 * (2 * (2 * (2 * (2 * Pow2(8)))))));
    Pow2Mono(n, 15);
  }

  /** How many symbols have each length; fails if one is longer than 15. */
  method CountLengths(lengths: seq<nat>) returns (counts: Option<seq<nat>>)
    requires |lengths| < 0x1_0000
    ensures counts.None? <==> exists s :: 0 <= s < |lengths| && lengths[s] > MAX_LENGTH
    ensures counts.Some? ==>
      && |counts.value| == 16
      && forall l | 0 <= l <= MAX_LENGTH :: counts.value[l] == Codes(lengths, l)
  {
    var table := seq(16, _ => 0);
    for i := 0 to |lengths|
      invariant |table| == 16
      invariant forall s | 0 <= s < i :: lengths[s] <= MAX_LENGTH
      invariant forall l | 0 <= l <= MAX_LENGTH :: table[l] == Codes(lengths[..i], l)
    {
      if lengths[i] > 15 { return None; }
      CountSnoc(lengths, i);
      if lengths[i] != 0 {
        table := table[lengths[i] := (table[lengths[i]] + 1) % 0x1_0000];
      }
    }
    assert lengths[..|lengths|] == lengths;
    return Some(table);
  }

  /** The over-subscription test. */
  method Fits(lengths: seq<nat>, counts: seq<nat>) returns (ok: bool)
    requires |counts| == 16 && forall l | 0 <= l <= MAX_LENGTH :: counts[l] == Codes(lengths, l)
    ensures ok <==> forall l | 1 <= l <= MAX_LENGTH :: Available(lengths, l) >= 0
  {
    var available: int := 1;
    for length := 1 to 16
      invariant available == Available(lengths, length - 1)
      invariant forall l | 1 <= l < length :: Available(lengths, l) >= 0
    {
      available := available * 2 - counts[length];
      if available < 0 {
        assert Available(lengths, length) < 0;
        return false;
      }
    }
    return true;
  }

  /** One step of the first-code loop, in the source's uint16: nothing is ever cut off. */
  lemma FirstCodeStep(lengths: seq<nat>, l: nat)
    requires 1 <= l <= MAX_LENGTH && Available(lengths, l) >= 0
    ensures ((FirstCode(lengths, l - 1) + Codes(lengths, l - 1)) * 2) % 0x1_0000 == FirstCode(lengths, l)
  {
    CodeSpace(lengths, l);
    Pow2At15(l);
  }

  /** The first code of every length. */
  method FirstCodes(lengths: seq<nat>, counts: seq<nat>) returns (next: seq<nat>)
    requires |counts| == 16 && forall l | 0 <= l <= MAX_LENGTH :: counts[l] == Codes(lengths, l)
    requires forall l | 1 <= l <= MAX_LENGTH :: Available(lengths, l) >= 0
    ensures NextCodes(next, lengths, 0)
  {
    assert FirstCode(lengths, 0) == 0;
    hide Count, Available, FirstCode, Codes, NextCodes;
    next := seq(16, _ => 0);
    assert HasFirstCodes(next, lengths, 1);
    hide HasFirstCodes;
    var code := 0;
    for length := 1 to 16
      invariant |next| == 16 && code == FirstCode(lengths, length - 1) && HasFirstCodes(next, lengths, length)
    {
      assert counts[length - 1] == Codes(lengths, length - 1);
      FirstCodeStep(lengths, length);
      code := ((code + counts[length - 1]) * 2) % 0x1_0000;
      HasOneMore(next, lengths, length, code);
      next := next[length := code];
    }
    NextCodesFirst(next, lengths);
  }

  predicate HasFirstCodes(next: seq<nat>, lengths: seq<nat>, n: nat) {
    |next| == 16 && forall l | 1 <= l < n && l <= MAX_LENGTH :: next[l] == FirstCode(lengths, l)
  }

  lemma HasOneMore(next: seq<nat>, lengths: seq<nat>, n: nat, code: nat)
    requires 1 <= n <= MAX_LENGTH && HasFirstCodes(next, lengths, n) && code == FirstCode(lengths, n)
    ensures HasFirstCodes(next[n := code], lengths, n + 1)
  {
    hide FirstCode;
  }

  lemma NextCodesFirst(next: seq<nat>, lengths: seq<nat>)
    requires HasFirstCodes(next, lengths, 16)
    ensures NextCodes(next, lengths, 0)
  {
    hide FirstCode;
    assert lengths[..0] == [];
  }

  /** `next` holds, for every length, the code the next symbol from `n` on will get. */
  ghost predicate NextCodes(next: seq<nat>, lengths: seq<nat>, n: nat)
    requires n <= |lengths|
  {
    |next| == 16 &&
    forall l | 1 <= l <= MAX_LENGTH :: next[l] == FirstCode(lengths, l) + Count(lengths[..n], l)
  }

  lemma NextCodesStep(next: seq<nat>, lengths: seq<nat>, n: nat)
    requires n < |lengths| && NextCodes(next, lengths, n)
    requires lengths[n] <= MAX_LENGTH && forall l | 1 <= l <= MAX_LENGTH :: Available(lengths, l) >= 0
    ensures lengths[n] == 0 ==> NextCodes(next, lengths, n + 1)
    ensures lengths[n] != 0 ==>
      && |next| == 16 && next[lengths[n]] == Code(lengths, n) < 0xffff
      && NextCodes(next[lengths[n] := next[lengths[n]] + 1], lengths, n + 1)
  {
    var length := lengths[n];
    CountSnoc(lengths, n);
    if length != 0 {
      CodeSpace(lengths, length);
      CountPrefix(lengths, n, length);
      Pow2At15(length);
    }
  }

  lemma UsedIsAccepted(lengths: seq<nat>, s: nat)
    requires Used(lengths, s) && forall i | 0 <= i < |lengths| :: lengths[i] <= MAX_LENGTH
    requires forall l | 1 <= l <= MAX_LENGTH :: Available(lengths, l) >= 0
    ensures Accepted(lengths)
  {
    hide Available;
  }

  class Table {
    var codes: seq<HuffmanCode>
    var maximumLength: nat

    constructor ()
      ensures codes == [] && maximumLength == 0
    {
      codes := [];
      maximumLength := 0;
    }

    /** The table holds exactly the canonical code of `lengths`. */
    ghost predicate Represents(lengths: seq<nat>)
      reads this
    {
      && Accepted(lengths)
      && Covers(lengths, |lengths|)
    }

    /** The entries are those of the used symbols below `n`. */
    ghost predicate Covers(lengths: seq<nat>, n: nat)
      requires n <= |lengths|
      reads this
    {
      && (forall k | 0 <= k < |codes| :: Entry(lengths, n, codes[k]))
      && (forall s | 0 <= s < n && lengths[s] != 0 ::
            exists k :: 0 <= k < |codes| && codes[k].symbol == s)
    }

    ghost predicate Entry(lengths: seq<nat>, n: nat, c: HuffmanCode)
      requires n <= |lengths|
      reads this
    {
      && c.symbol < n && Used(lengths, c.symbol)
      && c.length == lengths[c.symbol] <= maximumLength
      && c.reversed == Value(CodeBits(lengths, c.symbol))
    }

    /** Adds the entry of one used symbol. */
    method AddEntry(lengths: seq<nat>, symbol: nat, canonical: nat)
      requires Accepted(lengths) && Used(lengths, symbol) && Covers(lengths, symbol)
      requires canonical == Code(lengths, symbol)
      modifies this
      ensures Covers(lengths, symbol + 1) && codes != []
    {
      var length := lengths[symbol];
      var reversed := Reverse(canonical, length);
      codes := codes + [HuffmanCode(reversed, symbol, length)];
      maximumLength := Max(maximumLength, length);
      var last := |codes| - 1;
      assert forall k | 0 <= k < last :: codes[k] == old(codes)[k];
      forall s | 0 <= s < symbol + 1 && lengths[s] != 0
        ensures exists k :: 0 <= k < |codes| && codes[k].symbol == s
      {
        if s < symbol {
          var k :| 0 <= k < |old(codes)| && old(codes)[k].symbol == s;
          assert codes[k].symbol == s;
        } else {
          assert codes[last].symbol == s;
        }
      }
    }

    /** Hands out the codes in symbol order. */
    method Fill(lengths: seq<nat>, first: seq<nat>)
      requires NextCodes(first, lengths, 0)
      requires forall s | 0 <= s < |lengths| :: lengths[s] <= MAX_LENGTH
      requires forall l | 1 <= l <= MAX_LENGTH :: Available(lengths, l) >= 0
      modifies this
      ensures Covers(lengths, |lengths|)
    {
      codes := [];
      var next := first;
      assert Covers(lengths, 0);
      hide NextCodes, Covers, Available, Code, Accepted;
      for symbol := 0 to |lengths|
        invariant NextCodes(next, lengths, symbol) && Covers(lengths, symbol)
      {
        var length := lengths[symbol];
        NextCodesStep(next, lengths, symbol);
        if length != 0 {
          UsedIsAccepted(lengths, symbol);
          var canonical := next[length];
          next := next[length := (canonical + 1) % 0x1_0000];
          AddEntry(lengths, symbol, canonical);
        } else {
          CoversUnused(lengths, symbol);
        }
      }
    }

    lemma CoversUnused(lengths: seq<nat>, n: nat)
      requires n < |lengths| && lengths[n] == 0 && Covers(lengths, n)
      ensures Covers(lengths, n + 1)
    {
      hide Code;
    }

    /** Fills the table; fails exactly on the length vectors that are not Accepted. */
    method Build(lengths: seq<nat>) returns (ok: bool)
      requires |lengths| < 0x1_0000
      modifies this
      ensures ok <==> Accepted(lengths)
      ensures ok ==> Represents(lengths)
    {
      var counts := CountLengths(lengths);
      if counts.None? {
        return false;
      }
      var fits := Fits(lengths, counts.value);
      if !fits {
        return false;
      }
      var next := FirstCodes(lengths, counts.value);
      Fill(lengths, next);
      ok := codes != [];
      if ok {
        assert Entry(lengths, |lengths|, codes[0]) && Used(lengths, codes[0].symbol);
        assert Accepted(lengths);
      } else {
        assert forall s: nat :: !Used(lengths, s);
      }
    }

    /** Finds the symbol whose code has the given length and bits. */
    method Lookup(length: nat, code: nat, ghost lengths: seq<nat>) returns (r: Option<nat>)
      requires Represents(lengths)
      ensures r.Some? ==>
        Used(lengths, r.value) && lengths[r.value] == length && Value(CodeBits(lengths, r.value)) == code
      ensures r.None? ==>
        forall s: nat | Used(lengths, s) && lengths[s] == length :: Value(CodeBits(lengths, s)) != code
    {
      for k := 0 to |codes|
        invariant forall j | 0 <= j < k :: codes[j].length == length ==> codes[j].reversed != code
      {
        var candidate := codes[k];
        if candidate.length == length && candidate.reversed == code {
          assert Entry(lengths, |lengths|, candidate);
          return Some(candidate.symbol);
        }
      }
      forall s: nat | Used(lengths, s) && lengths[s] == length
        ensures Value(CodeBits(lengths, s)) != code
      {
        var k :| 0 <= k < |codes| && codes[k].symbol == s;
        assert Entry(lengths, |lengths|, codes[k]);
      }
      return None;
    }

    /** Reads the one symbol whose code comes next; fails exactly when no code does. */
    method Decode(reader: BitReader, ghost lengths: seq<nat>) returns (r: Option<nat>)
      requires Represents(lengths) && reader.Valid()
      modifies reader
      ensures reader.Valid()
      ensures r == Symbol(lengths, BitsOf(reader.input), old(reader.bit))
      ensures r.Some? ==> Used(lengths, r.value) && reader.bit == old(reader.bit) + lengths[r.value]
    {
      hide Pow2, BitsOf, CodeBits, Count, Available;
      ghost var bits, pos := BitsOf(reader.input), reader.bit;
      var code := 0;
      assert Value(bits[pos..pos]) == 0;
      hide Value;
      for length := 1 to maximumLength + 1
        invariant reader.Valid() && reader.bit == pos + length - 1
        invariant code == Value(bits[pos..pos + length - 1])
        invariant NoneShorter(lengths, bits, pos, length)
      {
        var longer := NextBit(reader, code, length - 1, pos);
        if longer.None? {
          return None;
        }
        code := longer.value;
        var found := Lookup(length, code, lengths);
        if found.Some? {
          ValueInjective(CodeBits(lengths, found.value), bits[pos..pos + length]);
          SymbolAt(lengths, bits, pos, found.value);
          return found;
        }
        NoneShorterStep(lengths, bits, pos, length);
      }
      forall s: nat | Used(lengths, s)
        ensures lengths[s] <= maximumLength
      {
        var k :| 0 <= k < |codes| && codes[k].symbol == s;
        assert Entry(lengths, |lengths|, codes[k]);
      }
      return None;
    }
  }

  ghost predicate NoneShorter(lengths: seq<nat>, bits: seq<bool>, pos: nat, length: nat) {
    forall s: nat | Used(lengths, s) && lengths[s] < length :: !At(bits, pos, CodeBits(lengths, s))
  }

  lemma NoneShorterStep(lengths: seq<nat>, bits: seq<bool>, pos: nat, length: nat)
    requires pos + length <= |bits| && NoneShorter(lengths, bits, pos, length)
    requires forall s: nat | Used(lengths, s) && lengths[s] == length ::
      Value(CodeBits(lengths, s)) != Value(bits[pos..pos + length])
    ensures NoneShorter(lengths, bits, pos, length + 1)
  {
  }

  /** Appends the next bit of the stream to a code of `length` bits that began at `pos`. */
  method NextBit(reader: BitReader, code: nat, length: nat, ghost pos: nat) returns (r: Option<nat>)
    requires reader.Valid() && reader.bit == pos + length
    requires code == Value(BitsOf(reader.input)[pos..pos + length])
    modifies reader
    ensures reader.Valid()
    ensures r.None? ==> |BitsOf(reader.input)| <= pos + length
    ensures r.Some? ==> reader.bit == pos + length + 1
    ensures r.Some? ==> r.value == Value(BitsOf(reader.input)[pos..pos + length + 1])
  {
    ghost var bits := BitsOf(reader.input);
    var bit := reader.Read(1);
    if bit.None? {
      return None;
    }
    ValueNext(bits, pos, length);
    ValueNext(bits, pos + length, 0);
    assert Pow2(0) == 1 && Value(bits[pos + length..pos + length]) == 0;
    return Some(code + bit.value * Pow2(length));
  }
}
