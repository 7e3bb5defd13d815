/**
 A reference DEFLATE encoder (section 3.2 of RFC 1951) for LZ77 token lists, and the proof that the decoder
 undoes it however the tokens are split into blocks.
 */
module DeflateEncoder {
  import opened Bytes
  import opened Huffman
  import opened Deflate
  import Inflater
  import InflateTheory

  // ---- LZ77 tokens ---------------------------------------------------------------------------

  datatype Token = Byte(value: byte) | Match(length: nat, distance: nat)

  predicate TokenLegal(t: Token, out: seq<byte>) {
    t.Match? ==> 3 <= t.length <= 258 && 1 <= t.distance <= 32768 && t.distance <= |out|
  }

  function ExpandToken(t: Token, out: seq<byte>): seq<byte>
    requires TokenLegal(t, out)
  {
    match t
    case Byte(v) => out + [v]
    case Match(length, distance) => out + Repetition(out, length, distance)
  }

  predicate TokensLegal(ts: seq<Token>, out: seq<byte>) {
    ts == [] || (TokenLegal(ts[0], out) && TokensLegal(ts[1..], ExpandToken(ts[0], out)))
  }

  function ExpandTokens(ts: seq<Token>, out: seq<byte>): seq<byte>
    requires TokensLegal(ts, out)
  {
    if ts == [] then out else ExpandTokens(ts[1..], ExpandToken(ts[0], out))
  }

  // ---- choosing symbols ----------------------------------------------------------------------

  /** The last of the first `n` bases that does not exceed `v`. */
  function LastBase(bases: seq<nat>, n: nat, v: nat): (i: nat)
    requires 0 < n <= |bases| && bases[0] <= v
    ensures i < n && bases[i] <= v && (i + 1 < n ==> v < bases[i + 1])
  {
    if bases[n - 1] <= v then n - 1 else LastBase(bases, n - 1, v)
  }

  lemma SmallPowers()
    ensures Pow2(0) == 1 && Pow2(1) == 2 && Pow2(2) == 4 && Pow2(3) == 8 && Pow2(4) == 16 && Pow2(5) == 32
    ensures Pow2(6) == 64 && Pow2(7) == 128 && Pow2(8) == 256 && Pow2(9) == 512 && Pow2(10) == 1024
    ensures Pow2(11) == 2048 && Pow2(12) == 4096 && Pow2(13) == 8192
  {
    assert Pow2(3) == 8;
    assert Pow2(6) == 2 * (2 * (2 * Pow2(3))) && Pow2(9) == 2 * (2 * (2 * Pow2(6)));
    assert Pow2(12) == 2 * (2 * (2 * Pow2(9)));
  }

  /** The length symbols leave no gap between 3 and 258. */
  lemma LengthsCovered(i: nat, v: nat)
    requires i < 29 && LENGTH_BASE[i] <= v <= 258 && (i + 1 < 29 ==> v < LENGTH_BASE[i + 1])
    ensures v - LENGTH_BASE[i] < Pow2(LENGTH_EXTRA[i])
  {
    hide Pow2;
    SmallPowers();
  }

  /** The distance symbols leave no gap between 1 and 32768. */
  lemma DistancesCovered(i: nat, v: nat)
    requires i < 30 && DISTANCE_BASE[i] <= v <= 32768 && (i + 1 < 30 ==> v < DISTANCE_BASE[i + 1])
    ensures v - DISTANCE_BASE[i] < Pow2(DISTANCE_EXTRA[i])
  {
    hide Pow2;
    SmallPowers();
  }

  /** The symbols by which a token is sent; length 258 goes as symbol 285. */
  function ElementFor(t: Token): Element
    requires t.Match? ==> 3 <= t.length <= 258 && 1 <= t.distance <= 32768
  {
    match t
    case Byte(v) => Literal(v)
    case Match(length, distance) =>
      var i, j := LastBase(LENGTH_BASE, 29, length), LastBase(DISTANCE_BASE, 30, distance);
      Copy(257 + i, length - LENGTH_BASE[i], j, distance - DISTANCE_BASE[j])
  }

  lemma MatchMeans(t: Token)
    requires t.Match? && 3 <= t.length <= 258 && 1 <= t.distance <= 32768
    ensures ElementFor(t).Copy? && WellFormed(ElementFor(t))
    ensures CopyLength(ElementFor(t)) == t.length && CopyDistance(ElementFor(t)) == t.distance
  {
    hide Pow2, LastBase, LENGTH_BASE, LENGTH_EXTRA, DISTANCE_BASE, DISTANCE_EXTRA;
    TablesStart();
    LengthsCovered(LastBase(LENGTH_BASE, 29, t.length), t.length);
    DistancesCovered(LastBase(DISTANCE_BASE, 30, t.distance), t.distance);
  }

  /** Sending a token by its symbols does not change what it expands to. */
  lemma ElementForMeans(t: Token, out: seq<byte>)
    requires TokenLegal(t, out)
    ensures WellFormed(ElementFor(t)) && Applicable(out, ElementFor(t))
    ensures Apply(out, ElementFor(t)) == ExpandToken(t, out)
  {
    if t.Match? {
      hide WellFormed, ElementFor, CopyLength, CopyDistance, Repetition;
      MatchMeans(t);
    }
  }

  function ElementsFor(ts: seq<Token>, out: seq<byte>): seq<Element>
    requires TokensLegal(ts, out)
  {
    if ts == [] then [] else [ElementFor(ts[0])] + ElementsFor(ts[1..], ExpandToken(ts[0], out))
  }

  /** Every symbol the tokens need, and the end of the block, has a code. */
  predicate Carries(ts: seq<Token>, out: seq<byte>, lit: seq<nat>, dist: seq<nat>)
    requires TokensLegal(ts, out)
  {
    if ts == [] then Used(lit, END_OF_BLOCK)
    else
      ElementForMeans(ts[0], out);
      Encodable(ElementFor(ts[0]), lit, dist) && Carries(ts[1..], ExpandToken(ts[0], out), lit, dist)
  }

  lemma {:induction false} ElementsForMean(ts: seq<Token>, out: seq<byte>, lit: seq<nat>, dist: seq<nat>)
    requires TokensLegal(ts, out) && Carries(ts, out, lit, dist)
    ensures ElementsLegal(ElementsFor(ts, out), lit, dist, out)
    ensures ExpandElements(ElementsFor(ts, out), lit, dist, out) == ExpandTokens(ts, out)
  {
    hide TokenLegal, ExpandToken, Encodable, Apply, Applicable;
    if ts != [] {
      ElementForMeans(ts[0], out);
      ElementsForMean(ts[1..], ExpandToken(ts[0], out), lit, dist);
      assert ElementsFor(ts, out)[1..] == ElementsFor(ts[1..], ExpandToken(ts[0], out));
    }
  }

  lemma FixedEncodable(t: Token, out: seq<byte>)
    requires TokenLegal(t, out)
    ensures Encodable(ElementFor(t), FIXED_LITERALS, FIXED_DISTANCES)
  {
    if t.Match? {
      MatchMeans(t);
    }
  }

  lemma {:induction false} FixedCarries(ts: seq<Token>, out: seq<byte>)
    requires TokensLegal(ts, out)
    ensures Carries(ts, out, FIXED_LITERALS, FIXED_DISTANCES)
  {
    if ts != [] {
      hide TokenLegal, ExpandToken, Encodable;
      ElementForMeans(ts[0], out);
      FixedEncodable(ts[0], out);
      FixedCarries(ts[1..], ExpandToken(ts[0], out));
    }
  }

  // ---- a dynamic header for any pair of codes ------------------------------------------------

  function PlainOps(lengths: seq<nat>): (r: seq<LengthOp>)
    ensures |r| == |lengths|
  {
    seq(|lengths|, i requires 0 <= i < |lengths| => Plain(lengths[i]))
  }

  const FLAT_SENT: seq<nat> := Fill(3, 0) + Fill(16, 4)
  const FLAT_CODE: seq<nat> := Fill(16, 4) + Fill(3, 0)

  lemma {:induction false} SentPrefix(n: nat)
    requires n <= 19
    ensures forall i | 0 <= i < 19 ::
      CodeLengthCode(FLAT_SENT[..n])[i] == if exists k | 0 <= k < n :: ORDER[k] == i then FLAT_CODE[i] else 0
  {
    hide FLAT_SENT, FLAT_CODE, ORDER;
    FlatAgrees();
    if n > 0 {
      SentPrefix(n - 1);
      assert FLAT_SENT[..n][..n - 1] == FLAT_SENT[..n - 1];
    }
  }

  lemma FlatAgrees()
    ensures |FLAT_SENT| == |FLAT_CODE| == |ORDER| == 19
    ensures forall k | 0 <= k < 19 :: ORDER[k] < 19 && FLAT_CODE[ORDER[k]] == FLAT_SENT[k]
  {
  }

  lemma OrderIsPermutation(i: nat)
    requires i < 19
    ensures exists k | 0 <= k < 19 :: ORDER[k] == i
  {
    var position := [3, 17, 15, 13, 11, 9, 7, 5, 4, 6, 8, 10, 12, 14, 16, 18, 0, 1, 2];
    assert ORDER[position[i]] == i;
  }

  lemma FlatCode()
    ensures CodeLengthCode(FLAT_SENT) == FLAT_CODE
  {
    SentPrefix(19);
    assert FLAT_SENT[..19] == FLAT_SENT;
    forall i | 0 <= i < 19
      ensures CodeLengthCode(FLAT_SENT)[i] == FLAT_CODE[i]
    {
      OrderIsPermutation(i);
    }
  }

  lemma {:induction false} KraftZeros(n: nat)
    ensures KraftSum(Fill(n, 0)) == 0
  {
    if n > 0 {
      KraftZeros(n - 1);
      assert Fill(n, 0)[..n - 1] == Fill(n - 1, 0);
    }
  }

  lemma FlatAccepted()
    ensures Accepted(FLAT_CODE)
  {
    hide Accepted;
    KraftFill(16, 4);
    KraftZeros(3);
    KraftConcat(Fill(16, 4), Fill(3, 0));
    SmallPowers();
    PowersOfTwo();
    AcceptedIffKraft(FLAT_CODE);
  }

  lemma {:induction false} PlainOpsMean(lengths: seq<nat>, acc: seq<nat>)
    requires forall i | 0 <= i < |lengths| :: lengths[i] <= 15
    ensures OpsLegal(PlainOps(lengths), FLAT_CODE, acc, |acc| + |lengths|)
    ensures OpsResult(PlainOps(lengths), FLAT_CODE, acc, |acc| + |lengths|) == acc + lengths
    decreases |lengths|
  {
    if lengths == [] {
      assert acc + lengths == acc;
    } else {
      PlainOpsMean(lengths[1..], acc + [lengths[0]]);
      assert PlainOps(lengths)[1..] == PlainOps(lengths[1..]);
      assert acc + [lengths[0]] + lengths[1..] == acc + lengths;
    }
  }

  ghost predicate CodesLegal(lit: seq<nat>, dist: seq<nat>) {
    && 257 <= |lit| <= 288 && 1 <= |dist| <= 32
    && Accepted(lit) && Accepted(dist) && Used(lit, END_OF_BLOCK)
  }

  function HeaderFor(lit: seq<nat>, dist: seq<nat>): Header
    requires |lit| >= 257 && |dist| >= 1
  {
    Header(|lit| - 257, |dist| - 1, FLAT_SENT, PlainOps(lit + dist))
  }

  lemma HeaderOpsMean(lit: seq<nat>, dist: seq<nat>)
    requires CodesLegal(lit, dist)
    ensures var h := HeaderFor(lit, dist);
      && OpsLegal(h.ops, CodeLengthCode(h.sent), [], Need(h))
      && AllLengths(h) == lit + dist
  {
    hide Accepted, CodeLengthCode, OpsLegal, OpsResult, PlainOps;
    BothBound(lit, dist);
    FlatCode();
    PlainOpsMean(lit + dist, []);
    assert [] + (lit + dist) == lit + dist;
  }

  lemma BothBound(lit: seq<nat>, dist: seq<nat>)
    requires CodesLegal(lit, dist)
    ensures forall i | 0 <= i < |lit + dist| :: (lit + dist)[i] <= 15
  {
    hide Accepted;
    AcceptedBound(lit);
    AcceptedBound(dist);
  }

  /** Any two acceptable codes can be announced by a dynamic header. */
  lemma HeaderForMeans(lit: seq<nat>, dist: seq<nat>)
    requires CodesLegal(lit, dist)
    ensures HeaderLegal(HeaderFor(lit, dist))
    ensures LiteralLengths(HeaderFor(lit, dist)) == lit && DistanceLengths(HeaderFor(lit, dist)) == dist
  {
    hide Accepted, CodeLengthCode, OpsLegal, AllLengths;
    HeaderOpsMean(lit, dist);
    FlatCode();
    FlatAccepted();
    assert (lit + dist)[..|lit|] == lit && (lit + dist)[|lit|..] == dist;
  }

  lemma AcceptedBound(lengths: seq<nat>)
    requires Accepted(lengths)
    ensures forall i | 0 <= i < |lengths| :: lengths[i] <= 15
  {
  }

  // ---- splitting a token list into blocks ----------------------------------------------------

  datatype Chunk =
    | Raw(data: seq<byte>)
    | WithFixedCodes(tokens: seq<Token>)
    | WithCodes(tokens: seq<Token>, lit: seq<nat>, dist: seq<nat>)

  ghost predicate ChunkLegal(c: Chunk, out: seq<byte>) {
    match c
    case Raw(data) => |data| < 0x1_0000
    case WithFixedCodes(ts) => TokensLegal(ts, out)
    case WithCodes(ts, lit, dist) => TokensLegal(ts, out) && CodesLegal(lit, dist) && Carries(ts, out, lit, dist)
  }

  ghost function ExpandChunk(c: Chunk, out: seq<byte>): seq<byte>
    requires ChunkLegal(c, out)
  {
    match c
    case Raw(data) => out + data
    case WithFixedCodes(ts) => ExpandTokens(ts, out)
    case WithCodes(ts, _, _) => ExpandTokens(ts, out)
  }

  ghost function BlockFor(c: Chunk, pos: nat, out: seq<byte>): Block
    requires ChunkLegal(c, out)
  {
    match c
    case Raw(data) => Stored(seq(PaddingAt(pos + 3), _ => false), data)
    case WithFixedCodes(ts) => Fixed(ElementsFor(ts, out))
    case WithCodes(ts, lit, dist) => Dynamic(HeaderFor(lit, dist), ElementsFor(ts, out))
  }

  lemma BlockForMeans(c: Chunk, pos: nat, out: seq<byte>)
    requires ChunkLegal(c, out)
    ensures BlockLegal(BlockFor(c, pos, out), pos, out)
    ensures ExpandBlock(BlockFor(c, pos, out), pos, out) == ExpandChunk(c, out)
  {
    hide CodesLegal, HeaderFor, HeaderLegal, ElementsFor, ElementsLegal, ExpandElements, ExpandTokens, Carries,
      TokensLegal, LiteralLengths, DistanceLengths;
    match c {
      case Raw(data) =>
      case WithFixedCodes(ts) =>
        FixedCarries(ts, out);
        ElementsForMean(ts, out, FIXED_LITERALS, FIXED_DISTANCES);
      case WithCodes(ts, lit, dist) =>
        assert 257 <= |lit| && 1 <= |dist| by { CodesSized(lit, dist); }
        HeaderForMeans(lit, dist);
        ElementsForMean(ts, out, lit, dist);
    }
  }

  lemma CodesSized(lit: seq<nat>, dist: seq<nat>)
    requires CodesLegal(lit, dist)
    ensures 257 <= |lit| && 1 <= |dist|
  {
  }

  ghost predicate ChunksLegal(cs: seq<Chunk>, out: seq<byte>) {
    cs == [] || (ChunkLegal(cs[0], out) && ChunksLegal(cs[1..], ExpandChunk(cs[0], out)))
  }

  ghost function ExpandChunks(cs: seq<Chunk>, out: seq<byte>): seq<byte>
    requires ChunksLegal(cs, out)
  {
    if cs == [] then out else ExpandChunks(cs[1..], ExpandChunk(cs[0], out))
  }

  ghost function BlocksFor(cs: seq<Chunk>, pos: nat, out: seq<byte>): (bs: seq<Block>)
    requires ChunksLegal(cs, out)
    ensures |bs| == |cs|
  {
    if cs == [] then []
    else
      BlockForMeans(cs[0], pos, out);
      var b := BlockFor(cs[0], pos, out);
      [b] + BlocksFor(cs[1..], pos + |BlockBits(b, false, pos, out)|, ExpandChunk(cs[0], out))
  }

  lemma {:induction false} BlocksForMean(cs: seq<Chunk>, pos: nat, out: seq<byte>)
    requires cs != [] && ChunksLegal(cs, out)
    ensures StreamLegal(BlocksFor(cs, pos, out), pos, out)
    ensures ExpandStream(BlocksFor(cs, pos, out), pos, out) == ExpandChunks(cs, out)
    decreases |cs|
  {
    hide ChunkLegal, ExpandChunk, BlockFor, BlockLegal, BlockBits, ExpandBlock;
    BlockForMeans(cs[0], pos, out);
    var b := BlockFor(cs[0], pos, out);
    var rest, next := ExpandChunk(cs[0], out), pos + |BlockBits(b, false, pos, out)|;
    assert BlocksFor(cs, pos, out)[1..] == BlocksFor(cs[1..], next, rest);
    if |cs| > 1 {
      BlocksForMean(cs[1..], next, rest);
    } else {
      assert ExpandChunks(cs[1..], rest) == rest;
    }
  }

  /** The encoder: the bytes of a DEFLATE stream for the chunks. */
  ghost function Compress(cs: seq<Chunk>): seq<byte>
    requires cs != [] && ChunksLegal(cs, [])
  {
    BlocksForMean(cs, 0, []);
    InflateTheory.Deflated(BlocksFor(cs, 0, []))
  }

  /** However a legal token list is split and coded, inflating gives back its LZ77 expansion. */
  lemma CompressRoundTrip(cs: seq<Chunk>)
    requires cs != [] && ChunksLegal(cs, [])
    ensures Inflater.Inflate(Compress(cs), |ExpandChunks(cs, [])|) == Some(ExpandChunks(cs, []))
  {
    hide ChunksLegal, BlocksFor, ExpandChunks, StreamLegal, ExpandStream, Inflater.Inflate, InflateTheory.Deflated;
    BlocksForMean(cs, 0, []);
    InflateTheory.DeflateRoundTrip(BlocksFor(cs, 0, []));
  }

  /** Every byte string has an encoding, so every payload can pass through the decoder. */
  lemma {:induction false} EveryPayloadCompresses(data: seq<byte>)
    ensures exists cs :: cs != [] && ChunksLegal(cs, []) && ExpandChunks(cs, []) == data
  {
    var ts := seq(|data|, i requires 0 <= i < |data| => Byte(data[i]));
    BytesExpand(data, []);
    var cs := [WithFixedCodes(ts)];
    assert [] + data == data && cs[1..] == [];
    assert ChunkLegal(cs[0], []) && ExpandChunk(cs[0], []) == data;
    assert ChunksLegal(cs[1..], data) && ExpandChunks(cs[1..], data) == data;
    assert ChunksLegal(cs, []) && ExpandChunks(cs, []) == data;
  }

  lemma {:induction false} BytesExpand(data: seq<byte>, out: seq<byte>)
    ensures var ts := seq(|data|, i requires 0 <= i < |data| => Byte(data[i]));
      TokensLegal(ts, out) && ExpandTokens(ts, out) == out + data
    decreases |data|
  {
    var ts := seq(|data|, i requires 0 <= i < |data| => Byte(data[i]));
    if data == [] {
      assert out + data == out;
    } else {
      BytesExpand(data[1..], out + [data[0]]);
      assert ts[1..] == seq(|data[1..]|, i requires 0 <= i < |data[1..]| => Byte(data[1..][i]));
      assert out + [data[0]] + data[1..] == out + data;
    }
  }
}
