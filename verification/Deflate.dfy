/**
 The DEFLATE format (section 3 of RFC 1951) as a grammar: what a stream consists of, which bits it is
 sent as, and which bytes it stands for. Nothing here decodes.
 */
module Deflate {
  import opened Bytes
  import opened BitStream
  import opened Huffman

  const LENGTH_BASE: seq<nat> := [3, 4, 5, 6, 7, 8, 9, 10, 11, 13, 15, 17, 19, 23, 27, 31, 35, 43, 51, 59, 67,
    83, 99, 115, 131, 163, 195, 227, 258]
  const LENGTH_EXTRA: seq<nat> := [0, 0, 0, 0, 0, 0, 0, 0, 1, 1, 1, 1, 2, 2, 2, 2, 3, 3, 3, 3, 4, 4, 4, 4, 5,
    5, 5, 5, 0]
  const DISTANCE_BASE: seq<nat> := [1, 2, 3, 4, 5, 7, 9, 13, 17, 25, 33, 49, 65, 97, 129, 193, 257, 385, 513,
    769, 1025, 1537, 2049, 3073, 4097, 6145, 8193, 12289, 16385, 24577]
  const DISTANCE_EXTRA: seq<nat> := [0, 0, 0, 0, 1, 1, 2, 2, 3, 3, 4, 4, 5, 5, 6, 6, 7, 7, 8, 8, 9, 9, 10, 10,
    11, 11, 12, 12, 13, 13]
  /** The order in which code length code lengths are sent. */
  const ORDER: seq<nat> := [16, 17, 18, 0, 8, 7, 9, 6, 10, 5, 11, 4, 12, 3, 13, 2, 14, 1, 15]
  const END_OF_BLOCK: nat := 256

  // ---- elements of a compressed block --------------------------------------------------------

  datatype Element =
    | Literal(value: byte)
    | Copy(lengthSymbol: nat, lengthExtra: nat, distanceSymbol: nat, distanceExtra: nat)

  lemma TablesStart()
    ensures |LENGTH_BASE| == |LENGTH_EXTRA| == 29 && LENGTH_BASE[0] == 3
    ensures |DISTANCE_BASE| == |DISTANCE_EXTRA| == 30 && DISTANCE_BASE[0] == 1
    ensures forall i | 0 <= i < 29 :: LENGTH_EXTRA[i] <= 5
    ensures forall i | 0 <= i < 30 :: DISTANCE_EXTRA[i] <= 13
  {
  }

  predicate WellFormed(e: Element) {
    match e
    case Literal(_) => true
    case Copy(ls, le, ds, de) =>
      && 257 <= ls <= 285 && le < Pow2(LENGTH_EXTRA[ls - 257])
      && ds < 30 && de < Pow2(DISTANCE_EXTRA[ds])
  }

  function CopyLength(e: Element): nat
    requires e.Copy? && WellFormed(e)
  {
    LENGTH_BASE[e.lengthSymbol - 257] + e.lengthExtra
  }

  function CopyDistance(e: Element): nat
    requires e.Copy? && WellFormed(e)
  {
    DISTANCE_BASE[e.distanceSymbol] + e.distanceExtra
  }

  /** The code lengths in use give every symbol of `e` a code. */
  predicate Encodable(e: Element, lit: seq<nat>, dist: seq<nat>) {
    && WellFormed(e)
    && match e
       case Literal(v) => Used(lit, v)
       case Copy(ls, _, ds, _) => Used(lit, ls) && Used(dist, ds)
  }

  function ElementBits(e: Element, lit: seq<nat>, dist: seq<nat>): seq<bool>
    requires Encodable(e, lit, dist)
  {
    match e
    case Literal(v) => CodeBits(lit, v)
    case Copy(ls, le, ds, de) =>
      CodeBits(lit, ls) + (Digits(le, LENGTH_EXTRA[ls - 257]) +
      (CodeBits(dist, ds) + Digits(de, DISTANCE_EXTRA[ds])))
  }

  /** Where the `i`-th repeated byte stands among the last `distance`. */
  function Phase(i: nat, distance: nat): (r: nat)
    requires 0 < distance
    ensures r < distance
  {
    if i < distance then i else Phase(i - distance, distance)
  }

  /** The last `distance` bytes of `out`, repeated periodically for `length` bytes. */
  function Repetition(out: seq<byte>, length: nat, distance: nat): (r: seq<byte>)
    requires 0 < distance <= |out|
    ensures |r| == length
  {
    seq(length, i requires 0 <= i < length => out[|out| - distance + Phase(i, distance)])
  }

  /** A copy may only reach back to bytes that exist. */
  predicate Applicable(out: seq<byte>, e: Element) {
    WellFormed(e) && (e.Copy? ==> 0 < CopyDistance(e) <= |out|)
  }

  function Apply(out: seq<byte>, e: Element): (r: seq<byte>)
    requires Applicable(out, e)
    ensures out <= r
  {
    match e
    case Literal(v) => out + [v]
    case Copy(_, _, _, _) => out + Repetition(out, CopyLength(e), CopyDistance(e))
  }

  predicate ElementsLegal(es: seq<Element>, lit: seq<nat>, dist: seq<nat>, out: seq<byte>) {
    if es == [] then Used(lit, END_OF_BLOCK)
    else
      && Encodable(es[0], lit, dist) && Applicable(out, es[0])
      && ElementsLegal(es[1..], lit, dist, Apply(out, es[0]))
  }

  /** All elements, then the end-of-block code. */
  function ElementsBits(es: seq<Element>, lit: seq<nat>, dist: seq<nat>, out: seq<byte>): seq<bool>
    requires ElementsLegal(es, lit, dist, out)
  {
    if es == [] then CodeBits(lit, END_OF_BLOCK)
    else ElementBits(es[0], lit, dist) + ElementsBits(es[1..], lit, dist, Apply(out, es[0]))
  }

  /** LZ77 expansion (section 2 of RFC 1951). */
  function ExpandElements(es: seq<Element>, lit: seq<nat>, dist: seq<nat>, out: seq<byte>): (r: seq<byte>)
    requires ElementsLegal(es, lit, dist, out)
    ensures out <= r
    decreases |es|
  {
    if es == [] then out else ExpandElements(es[1..], lit, dist, Apply(out, es[0]))
  }

  // ---- dynamic headers -----------------------------------------------------------------------

  datatype LengthOp =
    | Plain(length: nat)
    | RepeatPrevious(extra: nat)
    | ShortZeros(extra: nat)
    | LongZeros(extra: nat)

  predicate WellFormedOp(op: LengthOp) {
    match op
    case Plain(l) => l <= 15
    case RepeatPrevious(x) => x < 4
    case ShortZeros(x) => x < 8
    case LongZeros(x) => x < 128
  }

  function OpSymbol(op: LengthOp): nat {
    match op
    case Plain(l) => l
    case RepeatPrevious(_) => 16
    case ShortZeros(_) => 17
    case LongZeros(_) => 18
  }

  function OpExtra(op: LengthOp): seq<bool> {
    match op
    case Plain(_) => []
    case RepeatPrevious(x) => Digits(x, 2)
    case ShortZeros(x) => Digits(x, 3)
    case LongZeros(x) => Digits(x, 7)
  }

  function Fill(n: nat, x: nat): (r: seq<nat>)
    ensures |r| == n
  {
    seq(n, _ => x)
  }

  function ApplyOp(acc: seq<nat>, op: LengthOp): seq<nat>
    requires op.RepeatPrevious? ==> acc != []
  {
    match op
    case Plain(l) => acc + [l]
    case RepeatPrevious(x) => acc + Fill(3 + x, acc[|acc| - 1])
    case ShortZeros(x) => acc + Fill(3 + x, 0)
    case LongZeros(x) => acc + Fill(11 + x, 0)
  }

  predicate OpLegal(op: LengthOp, codes: seq<nat>, acc: seq<nat>) {
    WellFormedOp(op) && Used(codes, OpSymbol(op)) && (op.RepeatPrevious? ==> acc != [])
  }

  function OpBits(op: LengthOp, codes: seq<nat>): seq<bool>
    requires Used(codes, OpSymbol(op))
  {
    CodeBits(codes, OpSymbol(op)) + OpExtra(op)
  }

  /** The operations yield exactly `need` code lengths. */
  predicate OpsLegal(ops: seq<LengthOp>, codes: seq<nat>, acc: seq<nat>, need: nat) {
    if ops == [] then |acc| == need
    else OpLegal(ops[0], codes, acc) && OpsLegal(ops[1..], codes, ApplyOp(acc, ops[0]), need)
  }

  function OpsBits(ops: seq<LengthOp>, codes: seq<nat>, acc: seq<nat>, need: nat): seq<bool>
    requires OpsLegal(ops, codes, acc, need)
  {
    if ops == [] then [] else OpBits(ops[0], codes) + OpsBits(ops[1..], codes, ApplyOp(acc, ops[0]), need)
  }

  function OpsResult(ops: seq<LengthOp>, codes: seq<nat>, acc: seq<nat>, need: nat): (r: seq<nat>)
    requires OpsLegal(ops, codes, acc, need)
    ensures |r| == need
  {
    if ops == [] then acc else OpsResult(ops[1..], codes, ApplyOp(acc, ops[0]), need)
  }

  datatype Header = Header(hlit: nat, hdist: nat, sent: seq<nat>, ops: seq<LengthOp>)

  /** The code length code: `sent` holds its lengths in transmission order, the rest are zero. */
  function CodeLengthCode(sent: seq<nat>): (r: seq<nat>)
    requires |sent| <= 19
    ensures |r| == 19
  {
    if sent == [] then Fill(19, 0)
    else CodeLengthCode(sent[..|sent| - 1])[ORDER[|sent| - 1] := sent[|sent| - 1]]
  }

  function Need(h: Header): nat { h.hlit + 257 + h.hdist + 1 }

  ghost predicate HeaderLegal(h: Header) {
    && h.hlit < 32 && h.hdist < 32 && 4 <= |h.sent| <= 19
    && (forall i | 0 <= i < |h.sent| :: h.sent[i] < 8)
    && Accepted(CodeLengthCode(h.sent))
    && OpsLegal(h.ops, CodeLengthCode(h.sent), [], Need(h))
    && Used(LiteralLengths(h), END_OF_BLOCK)
    && Accepted(LiteralLengths(h)) && Accepted(DistanceLengths(h))
  }

  function AllLengths(h: Header): (r: seq<nat>)
    requires |h.sent| <= 19 && OpsLegal(h.ops, CodeLengthCode(h.sent), [], Need(h))
    ensures |r| == Need(h)
  {
    OpsResult(h.ops, CodeLengthCode(h.sent), [], Need(h))
  }

  function LiteralLengths(h: Header): seq<nat>
    requires |h.sent| <= 19 && OpsLegal(h.ops, CodeLengthCode(h.sent), [], Need(h))
  {
    AllLengths(h)[..h.hlit + 257]
  }

  function DistanceLengths(h: Header): seq<nat>
    requires |h.sent| <= 19 && OpsLegal(h.ops, CodeLengthCode(h.sent), [], Need(h))
  {
    AllLengths(h)[h.hlit + 257..]
  }

  function SentBits(sent: seq<nat>): (r: seq<bool>)
    ensures |r| == 3 * |sent|
  {
    if sent == [] then [] else SentBits(sent[..|sent| - 1]) + Digits(sent[|sent| - 1], 3)
  }

  ghost function HeaderBits(h: Header): seq<bool>
    requires HeaderLegal(h)
  {
    Digits(h.hlit, 5) + (Digits(h.hdist, 5) + (Digits(|h.sent| - 4, 4) +
    (SentBits(h.sent) + OpsBits(h.ops, CodeLengthCode(h.sent), [], Need(h)))))
  }

  // ---- blocks --------------------------------------------------------------------------------

  const FIXED_LITERALS: seq<nat> := Fill(144, 8) + Fill(112, 9) + Fill(24, 7) + Fill(8, 8)
  const FIXED_DISTANCES: seq<nat> := Fill(32, 5)

  lemma {:induction false} KraftFill(n: nat, x: nat)
    requires 0 < x <= MAX_LENGTH
    ensures KraftSum(Fill(n, x)) == n * Pow2(MAX_LENGTH - x)
  {
    hide Pow2;
    if n > 0 {
      KraftFill(n - 1, x);
      assert Fill(n, x)[..n - 1] == Fill(n - 1, x);
      OneMore(n, Pow2(MAX_LENGTH - x));
    }
  }

  lemma OneMore(n: nat, unit: nat)
    requires n > 0
    ensures (n - 1) * unit + unit == n * unit
  {
  }

  lemma {:induction false} KraftConcat(a: seq<nat>, b: seq<nat>)
    ensures KraftSum(a + b) == KraftSum(a) + KraftSum(b)
  {
    if b == [] {
      assert a + b == a;
    } else {
      var last := |b| - 1;
      KraftConcat(a, b[..last]);
      assert (a + b)[..|a + b| - 1] == a + b[..last];
    }
  }

  lemma PowersOfTwo()
    ensures Pow2(6) == 64 && Pow2(7) == 128 && Pow2(8) == 256 && Pow2(10) == 1024 && Pow2(15) == 0x8000
  {
    assert Pow2(4) == 16;
    assert Pow2(8) == 2 * (2 * (2 * (2 * Pow2(4))));
    assert Pow2(6) == 2 * (2 * Pow2(4)) && Pow2(7) == 2 * Pow2(6);
    assert Pow2(12) == 2 * (2 * (2 * (2 * Pow2(8)))) && Pow2(10) == 2 * (2 * Pow2(8));
    assert Pow2(15) == 2 * (2 * (2 * Pow2(12)));
  }

  /** The codes of fixed blocks fill the code space completely. */
  lemma {:induction false} FixedAccepted()
    ensures Accepted(FIXED_LITERALS) && Accepted(FIXED_DISTANCES)
    ensures KraftSum(FIXED_LITERALS) == KraftSum(FIXED_DISTANCES) == Pow2(MAX_LENGTH)
  {
    PowersOfTwo();
    KraftFill(144, 8);
    KraftFill(112, 9);
    KraftFill(24, 7);
    KraftFill(8, 8);
    KraftFill(32, 5);
    KraftConcat(Fill(144, 8), Fill(112, 9));
    KraftConcat(Fill(144, 8) + Fill(112, 9), Fill(24, 7));
    KraftConcat(Fill(144, 8) + Fill(112, 9) + Fill(24, 7), Fill(8, 8));
    AcceptedIffKraft(FIXED_LITERALS);
    AcceptedIffKraft(FIXED_DISTANCES);
  }

  datatype Block =
    | Stored(padding: seq<bool>, data: seq<byte>)
    | Fixed(elements: seq<Element>)
    | Dynamic(header: Header, elements: seq<Element>)

  /** The bits of a stored block between its type and the next byte boundary carry nothing. */
  function PaddingAt(pos: nat): nat { AlignUp(pos) - pos }

  ghost predicate BlockLegal(b: Block, pos: nat, out: seq<byte>) {
    match b
    case Stored(padding, data) => |padding| == PaddingAt(pos + 3) && |data| < 0x1_0000
    case Fixed(es) => ElementsLegal(es, FIXED_LITERALS, FIXED_DISTANCES, out)
    case Dynamic(h, es) => HeaderLegal(h) && ElementsLegal(es, LiteralLengths(h), DistanceLengths(h), out)
  }

  function BytesBits(data: seq<byte>): (r: seq<bool>)
    ensures |r| == 8 * |data|
  {
    if data == [] then [] else Digits(data[0], 8) + BytesBits(data[1..])
  }

  const LENGTH_WIDTH: nat := 16

  /** A stored block: its padding, its length, the complement of its length, its bytes. */
  function StoredBits(padding: seq<bool>, data: seq<byte>): seq<bool>
    requires |data| < 0x1_0000
  {
    padding + (Digits(|data|, LENGTH_WIDTH) + (Digits(0xffff - |data|, LENGTH_WIDTH) + BytesBits(data)))
  }

  function BlockType(b: Block): nat {
    match b
    case Stored(_, _) => 0
    case Fixed(_) => 1
    case Dynamic(_, _) => 2
  }

  ghost function BodyBits(b: Block, pos: nat, out: seq<byte>): seq<bool>
    requires BlockLegal(b, pos, out)
  {
    match b
    case Stored(padding, data) => StoredBits(padding, data)
    case Fixed(es) => ElementsBits(es, FIXED_LITERALS, FIXED_DISTANCES, out)
    case Dynamic(h, es) => HeaderBits(h) + ElementsBits(es, LiteralLengths(h), DistanceLengths(h), out)
  }

  ghost function BlockBits(b: Block, last: bool, pos: nat, out: seq<byte>): (r: seq<bool>)
    requires BlockLegal(b, pos, out)
    ensures |r| >= 3
  {
    Digits(Bit(last), 1) + (Digits(BlockType(b), 2) + BodyBits(b, pos, out))
  }

  ghost function ExpandBlock(b: Block, pos: nat, out: seq<byte>): (r: seq<byte>)
    requires BlockLegal(b, pos, out)
    ensures out <= r
  {
    match b
    case Stored(_, data) => out + data
    case Fixed(es) => ExpandElements(es, FIXED_LITERALS, FIXED_DISTANCES, out)
    case Dynamic(h, es) => ExpandElements(es, LiteralLengths(h), DistanceLengths(h), out)
  }

  /** A non-empty list of blocks; the encoding of a stored block depends on where it starts. */
  ghost predicate StreamLegal(bs: seq<Block>, pos: nat, out: seq<byte>) {
    && bs != [] && BlockLegal(bs[0], pos, out)
    && (|bs| > 1 ==>
          StreamLegal(bs[1..], pos + |BlockBits(bs[0], false, pos, out)|, ExpandBlock(bs[0], pos, out)))
  }

  ghost function StreamBits(bs: seq<Block>, pos: nat, out: seq<byte>): seq<bool>
    requires StreamLegal(bs, pos, out)
    decreases |bs|
  {
    hide BodyBits, BlockLegal, BlockBits, ExpandBlock;
    if |bs| == 1 then BlockBits(bs[0], true, pos, out)
    else
      var first := BlockBits(bs[0], false, pos, out);
      first + StreamBits(bs[1..], pos + |first|, ExpandBlock(bs[0], pos, out))
  }

  ghost function ExpandStream(bs: seq<Block>, pos: nat, out: seq<byte>): (r: seq<byte>)
    requires StreamLegal(bs, pos, out)
    ensures out <= r
    decreases |bs|
  {
    hide BodyBits, BlockLegal, BlockBits, ExpandBlock;
    if |bs| == 1 then ExpandBlock(bs[0], pos, out)
    else
      ExpandStream(bs[1..], pos + |BlockBits(bs[0], false, pos, out)|, ExpandBlock(bs[0], pos, out))
  }
}
