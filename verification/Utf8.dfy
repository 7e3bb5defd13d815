/** UTF-8 validation of entry names, against the encoding of sections 3 and 4 of RFC 3629. */
module Utf8 {
  import opened Bytes

  // ---- the encoding --------------------------------------------------------------------------

  /** The characters a name may hold: every Unicode scalar value except zero. */
  predicate Legal(s: nat) { 0 < s <= 0x10_ffff && !(0xd800 <= s <= 0xdfff) }

  function Trail(v: nat): byte { 0x80 + v % 0x40 }

  function Encode(s: nat): (r: seq<byte>)
    requires Legal(s)
    ensures 1 <= |r| <= 4
  {
    if s < 0x80 then [s]
    else if s < 0x800 then [0xc0 + s / 0x40, Trail(s)]
    else if s < 0x1_0000 then [0xe0 + s / 0x1000, Trail(s / 0x40), Trail(s)]
    else [0xf0 + s / 0x4_0000, Trail(s / 0x1000), Trail(s / 0x40), Trail(s)]
  }

  predicate AllLegal(ss: seq<nat>) { forall i | 0 <= i < |ss| :: Legal(ss[i]) }

  function EncodeAll(ss: seq<nat>): seq<byte>
    requires AllLegal(ss)
  {
    if ss == [] then [] else Encode(ss[0]) + EncodeAll(ss[1..])
  }

  // ---- decoding ------------------------------------------------------------------------------

  datatype Char = Char(scalar: nat, length: nat)

  /** How many bytes follow a leading byte, and the bits it contributes; the masks of the source as quotients. */
  function Lead(first: byte): Option<Char> {
    if first < 0x80 then Some(Char(first, 0))
    else if first / 0x20 == 6 then Some(Char(first % 0x20, 1))
    else if first / 0x10 == 14 then Some(Char(first % 0x10, 2))
    else if first / 8 == 30 then Some(Char(first % 8, 3))
    else None
  }

  /** Six more bits at the low end. */
  function Append6(scalar: nat, continuation: nat): nat { scalar * 0x40 + continuation % 0x40 }

  /** Adds `n` continuation bytes to a scalar. */
  function Continue(scalar: nat, b: seq<byte>, n: nat): Option<nat>
    requires n <= |b|
    decreases n
  {
    if n == 0 then Some(scalar)
    else if b[0] / 0x40 != 2 then None
    else Continue(Append6(scalar, b[0]), b[1..], n - 1)
  }

  /** Shortest form, in range, not a surrogate. */
  predicate Proper(scalar: nat, remaining: nat) {
    && !(remaining == 1 && scalar < 0x80) && !(remaining == 2 && scalar < 0x800)
    && !(remaining == 3 && scalar < 0x1_0000) && scalar <= 0x10_ffff && !(0xd800 <= scalar <= 0xdfff)
  }

  /** The character at the front. */
  function First(b: seq<byte>): (r: Option<Char>)
    requires b != []
    ensures r.Some? ==> 1 <= r.value.length <= |b|
  {
    match Lead(b[0])
    case None => None
    case Some(Char(bits, remaining)) =>
      if remaining == 0 then (if bits == 0 then None else Some(Char(bits, 1)))
      else if 1 + remaining > |b| then None
      else
        match Continue(bits, b[1..], remaining)
        case None => None
        case Some(scalar) => if Proper(scalar, remaining) then Some(Char(scalar, 1 + remaining)) else None
  }

  function Decode(b: seq<byte>): Option<seq<nat>>
    decreases |b|
  {
    if b == [] then Some([])
    else
      match First(b)
      case None => None
      case Some(c) =>
        match Decode(b[c.length..])
        case None => None
        case Some(rest) => Some([c.scalar] + rest)
  }

  // ---- the validator -------------------------------------------------------------------------

  method Scan(b: seq<byte>) returns (r: Option<nat>)
    requires b != []
    ensures r.None? <==> First(b).None?
    ensures r.Some? ==> First(b).value.length == r.value
  {
    var lead := Lead(b[0]);
    if lead.None? { return None; }
    if lead.value.length == 0 { return if lead.value.scalar == 0 then None else Some(1); }
    var remaining, scalar := lead.value.length, lead.value.scalar;
    if 1 + remaining > |b| { return None; }
    for index := 0 to remaining
      invariant Continue(lead.value.scalar, b[1..], remaining) == Continue(scalar, b[1 + index..], remaining - index)
    {
      var continuation := b[1 + index];
      if continuation / 0x40 != 2 { return None; }
      assert b[1 + index..][1..] == b[1 + (index + 1)..];
      assert b[1 + index..][0] == continuation;
      scalar := Append6(scalar, continuation);
    }
    if (remaining == 1 && scalar < 0x80) || (remaining == 2 && scalar < 0x800) ||
       (remaining == 3 && scalar < 0x1_0000) || scalar > 0x10_ffff || 0xd800 <= scalar <= 0xdfff {
      return None;
    }
    return Some(1 + remaining);
  }

  method ValidUtf8(value: seq<byte>) returns (ok: bool)
    ensures ok <==> Decode(value).Some?
  {
    hide First;
    var offset := 0;
    while offset < |value|
      invariant offset <= |value|
      invariant Decode(value).Some? <==> Decode(value[offset..]).Some?
    {
      var length := Scan(value[offset..]);
      if length.None? { return false; }
      assert value[offset..][length.value..] == value[offset + length.value..];
      offset := offset + length.value;
    }
    return true;
  }

  // ---- decoding inverts the encoding ---------------------------------------------------------

  /** A character is read exactly where its encoding stands. */
  lemma FirstExact(b: seq<byte>, s: nat, n: nat)
    requires b != []
    ensures First(b) == Some(Char(s, n)) <==> Legal(s) && Encode(s) <= b && n == |Encode(s)|
  {
    if First(b) == Some(Char(s, n)) { FirstSound(b, s, n); }
    if Legal(s) && Encode(s) <= b && n == |Encode(s)| { FirstComplete(b, s); }
  }

  predicate IsTrail(b: byte) { b / 0x40 == 2 }

  function Joined1(scalar: nat, b: seq<byte>): Option<nat>
    requires |b| >= 1
  {
    if IsTrail(b[0]) then Some(Append6(scalar, b[0])) else None
  }

  function Joined2(scalar: nat, b: seq<byte>): Option<nat>
    requires |b| >= 2
  {
    if IsTrail(b[0]) && IsTrail(b[1]) then Some(Append6(Append6(scalar, b[0]), b[1])) else None
  }

  function Joined3(scalar: nat, b: seq<byte>): Option<nat>
    requires |b| >= 3
  {
    if IsTrail(b[0]) && IsTrail(b[1]) && IsTrail(b[2])
    then Some(Append6(Append6(Append6(scalar, b[0]), b[1]), b[2])) else None
  }

  /** Continuation bytes spelled out. */
  lemma ContinueSteps(scalar: nat, b: seq<byte>)
    ensures |b| >= 1 ==> Continue(scalar, b, 1) == Joined1(scalar, b)
    ensures |b| >= 2 ==> Continue(scalar, b, 2) == Joined2(scalar, b)
    ensures |b| >= 3 ==> Continue(scalar, b, 3) == Joined3(scalar, b)
  {
    hide Append6;
    if |b| >= 1 {
      var u := Append6(scalar, b[0]);
      assert Continue(u, b[1..], 0) == Some(u);
      if |b| >= 2 {
        var v := Append6(u, b[1]);
        assert b[1..][0] == b[1] && Continue(v, b[1..][1..], 0) == Some(v);
        if |b| >= 3 {
          var w := Append6(v, b[2]);
          assert b[1..][1..][0] == b[2] && Continue(w, b[1..][1..][1..], 0) == Some(w);
        }
      }
    }
  }

  /** Appending the low six bits undoes the division. */
  lemma TrailAppends(v: nat)
    ensures IsTrail(Trail(v)) && Append6(v / 0x40, Trail(v)) == v
  {
  }

  lemma TrailRecovers(v: nat, c: byte)
    requires IsTrail(c)
    ensures Append6(v, c) / 0x40 == v && Trail(Append6(v, c)) == c
  {
  }

  lemma Quotients(s: nat)
    ensures s / 0x40 / 0x40 == s / 0x1000 && s / 0x1000 / 0x40 == s / 0x4_0000
  {
  }

  lemma FirstComplete(b: seq<byte>, s: nat)
    requires b != [] && Legal(s) && Encode(s) <= b
    ensures First(b) == Some(Char(s, |Encode(s)|))
  {
    var e := Encode(s);
    var tail := b[1..];
    assert forall i | 0 <= i < |e| :: b[i] == e[i];
    assert forall i | 1 <= i < |e| :: tail[i - 1] == e[i];
    TrailAppends(s);
    TrailAppends(s / 0x40);
    TrailAppends(s / 0x1000);
    Quotients(s);
    LeadOf(s);
    hide Continue, Trail, IsTrail, Append6, Lead;
    if |e| > 1 {
      ContinueSteps(Lead(b[0]).value.scalar, tail);
    }
  }

  /** The leading byte announces the length and carries the top bits. */
  lemma LeadOf(s: nat)
    requires Legal(s)
    ensures Lead(Encode(s)[0]) == Some(Char(
      if s < 0x80 then s else if s < 0x800 then s / 0x40 else if s < 0x1_0000 then s / 0x1000 else s / 0x4_0000,
      |Encode(s)| - 1))
  {
  }

  lemma LeadByte(first: byte)
    requires Lead(first).Some?
    ensures var Char(bits, n) := Lead(first).value;
      && n <= 3
      && bits < (if n == 0 then 0x80 else if n == 1 then 0x20 else if n == 2 then 0x10 else 8)
      && first == (if n == 0 then bits else if n == 1 then 0xc0 + bits else if n == 2 then 0xe0 + bits else 0xf0 + bits)
  {
  }

  lemma FirstSound(b: seq<byte>, s: nat, n: nat)
    requires b != [] && First(b) == Some(Char(s, n))
    ensures Legal(s) && Encode(s) <= b && n == |Encode(s)|
  {
    hide Continue, Trail, IsTrail, Append6, Lead;
    var bits := Lead(b[0]).value.scalar;
    var tail := b[1..];
    LeadByte(b[0]);
    ContinueSteps(bits, tail);
    assert forall i | 1 <= i < n :: tail[i - 1] == b[i];
    Quotients(s);
    if n == 2 {
      TrailRecovers(bits, b[1]);
    } else if n == 3 {
      TrailRecovers(bits, b[1]);
      TrailRecovers(Append6(bits, b[1]), b[2]);
    } else if n == 4 {
      TrailRecovers(bits, b[1]);
      TrailRecovers(Append6(bits, b[1]), b[2]);
      TrailRecovers(Append6(Append6(bits, b[1]), b[2]), b[3]);
    }
  }

  lemma {:induction false} DecodeSound(b: seq<byte>, ss: seq<nat>)
    requires Decode(b) == Some(ss)
    ensures AllLegal(ss) && EncodeAll(ss) == b
    decreases |b|
  {
    hide First, Encode, Legal;
    if b != [] {
      var c := First(b).value;
      FirstExact(b, c.scalar, c.length);
      DecodeSound(b[c.length..], ss[1..]);
      assert ss == [c.scalar] + ss[1..];
      assert b == b[..c.length] + b[c.length..];
    }
  }

  lemma {:induction false} DecodeComplete(ss: seq<nat>)
    requires AllLegal(ss)
    ensures Decode(EncodeAll(ss)) == Some(ss)
    decreases |ss|
  {
    hide First, Encode, Legal;
    if ss != [] {
      var e, b := Encode(ss[0]), EncodeAll(ss);
      assert b[|e|..] == EncodeAll(ss[1..]);
      FirstExact(b, ss[0], |e|);
      DecodeComplete(ss[1..]);
      assert ss == [ss[0]] + ss[1..];
    }
  }

  /** The accepted byte strings are exactly the encodings, and decoding recovers what was encoded. */
  lemma DecodeExact(b: seq<byte>, ss: seq<nat>)
    ensures Decode(b) == Some(ss) <==> AllLegal(ss) && EncodeAll(ss) == b
  {
    hide Decode, EncodeAll, AllLegal;
    if Decode(b) == Some(ss) { DecodeSound(b, ss); }
    if AllLegal(ss) && EncodeAll(ss) == b { DecodeComplete(ss); }
  }

  // ---- the byte table of section 4 of RFC 3629 -----------------------------------------------

  predicate In(b: byte, low: byte, high: byte) { low <= b <= high }

  /** The bits of a byte that lie above its mark. */
  function Above(b: byte, mark: byte): int { (b as int) - (mark as int) }

  predicate Tail(b: byte) { In(b, 0x80, 0xbf) }

  predicate TwoBytes(b: seq<byte>) { |b| >= 2 && In(b[0], 0xc2, 0xdf) && Tail(b[1]) }

  predicate ThreeBytes(b: seq<byte>) {
    && |b| >= 3 && Tail(b[2])
    && (|| (b[0] == 0xe0 && In(b[1], 0xa0, 0xbf)) || (In(b[0], 0xe1, 0xec) && Tail(b[1]))
        || (b[0] == 0xed && In(b[1], 0x80, 0x9f)) || (In(b[0], 0xee, 0xef) && Tail(b[1])))
  }

  predicate FourBytes(b: seq<byte>) {
    && |b| >= 4 && Tail(b[2]) && Tail(b[3])
    && (|| (b[0] == 0xf0 && In(b[1], 0x90, 0xbf)) || (In(b[0], 0xf1, 0xf3) && Tail(b[1]))
        || (b[0] == 0xf4 && In(b[1], 0x80, 0x8f)))
  }

  /** What a continuation byte adds. */
  lemma TailAdds(scalar: nat, b: byte)
    ensures IsTrail(b) <==> Tail(b)
    ensures Tail(b) ==> Append6(scalar, b) == 0x40 * scalar + Above(b, 0x80)
  {
  }

  lemma LeadTable(first: byte)
    ensures Lead(first) == if first < 0x80 then Some(Char(first, 0))
      else if In(first, 0xc0, 0xdf) then Some(Char(first - 0xc0, 1))
      else if In(first, 0xe0, 0xef) then Some(Char(first - 0xe0, 2))
      else if In(first, 0xf0, 0xf7) then Some(Char(first - 0xf0, 3))
      else None
  {
  }

  lemma ShortTable(b: seq<byte>)
    requires b != [] && b[0] < 0xe0
    ensures First(b) ==
      if In(b[0], 1, 0x7f) then Some(Char(b[0], 1))
      else if TwoBytes(b) then Some(Char(0x40 * Above(b[0], 0xc0) + Above(b[1], 0x80), 2))
      else None
  {
    hide Continue, Lead, Append6, IsTrail;
    LeadTable(b[0]);
    if |b| >= 2 && b[0] >= 0xc0 {
      ContinueSteps(b[0] - 0xc0, b[1..]);
      TailAdds(b[0] - 0xc0, b[1]);
    }
  }

  lemma ThreeTable(b: seq<byte>)
    requires b != [] && In(b[0], 0xe0, 0xef)
    ensures First(b) ==
      if ThreeBytes(b) then Some(Char(0x1000 * Above(b[0], 0xe0) + 0x40 * Above(b[1], 0x80) + Above(b[2], 0x80), 3)) else None
  {
    hide Continue, Lead, Append6, IsTrail;
    LeadTable(b[0]);
    if |b| >= 3 {
      ContinueSteps(b[0] - 0xe0, b[1..]);
      TailAdds(b[0] - 0xe0, b[1]);
      TailAdds(Append6(b[0] - 0xe0, b[1]), b[2]);
    }
  }

  lemma FourTable(b: seq<byte>)
    requires b != [] && b[0] >= 0xf0
    ensures First(b) ==
      if FourBytes(b)
      then Some(Char(0x4_0000 * Above(b[0], 0xf0) + 0x1000 * Above(b[1], 0x80) + 0x40 * Above(b[2], 0x80)
                     + Above(b[3], 0x80), 4))
      else None
  {
    hide Continue, Lead, Append6, IsTrail;
    LeadTable(b[0]);
    if |b| >= 4 && b[0] <= 0xf7 {
      var s := b[0] - 0xf0;
      ContinueSteps(s, b[1..]);
      TailAdds(s, b[1]);
      TailAdds(Append6(s, b[1]), b[2]);
      TailAdds(Append6(Append6(s, b[1]), b[2]), b[3]);
    }
  }

  /** A character is accepted exactly by the table, zero excepted, and its bits are those behind the marks. */
  lemma TableExact(b: seq<byte>)
    requires b != []
    ensures First(b) ==
      if In(b[0], 1, 0x7f) then Some(Char(b[0], 1))
      else if TwoBytes(b) then Some(Char(0x40 * Above(b[0], 0xc0) + Above(b[1], 0x80), 2))
      else if ThreeBytes(b) then Some(Char(0x1000 * Above(b[0], 0xe0) + 0x40 * Above(b[1], 0x80) + Above(b[2], 0x80), 3))
      else if FourBytes(b)
      then Some(Char(0x4_0000 * Above(b[0], 0xf0) + 0x1000 * Above(b[1], 0x80) + 0x40 * Above(b[2], 0x80)
                     + Above(b[3], 0x80), 4))
      else None
  {
    hide First;
    if b[0] < 0xe0 { ShortTable(b); } else if b[0] < 0xf0 { ThreeTable(b); } else { FourTable(b); }
  }
}
