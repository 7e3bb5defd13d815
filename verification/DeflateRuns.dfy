/**
 A writer of dynamic headers that sends code lengths as runs (section 3.2.7 of RFC 1951), and the proof that the
 decoder reads back every vector of code lengths that is written so.
 */
module DeflateRuns {
  import opened Bytes
  import opened BitStream
  import opened Huffman
  import opened Deflate
  import opened Inflater
  import DeflateEncoder
  import InflateTheory

  // ---- runs of code lengths ------------------------------------------------------------------

  /** One code length, the previous one three to six times more, or three to 138 zeros. */
  datatype Run = One(length: nat) | Again(count: nat) | Zeros(count: nat)

  predicate RunFits(r: Run) {
    match r
    case One(l) => l <= 15
    case Again(n) => 3 <= n <= 6
    case Zeros(n) => 3 <= n <= 138
  }

  /** The code lengths a run adds to those before it. */
  function Stretch(r: Run, before: seq<nat>): seq<nat>
    requires r.Again? ==> before != []
  {
    match r
    case One(l) => [l]
    case Again(n) => Fill(n, before[|before| - 1])
    case Zeros(n) => Fill(n, 0)
  }

  predicate RunsLegal(runs: seq<Run>, before: seq<nat>) {
    runs == [] ||
    (RunFits(runs[0]) && (runs[0].Again? ==> before != []) && RunsLegal(runs[1..], before + Stretch(runs[0], before)))
  }

  function Spelled(runs: seq<Run>, before: seq<nat>): seq<nat>
    requires RunsLegal(runs, before)
  {
    if runs == [] then before else Spelled(runs[1..], before + Stretch(runs[0], before))
  }

  /** Ten zeros are the most that symbol 17 can send. */
  function RunSymbol(r: Run): nat {
    match r
    case One(l) => l
    case Again(_) => 16
    case Zeros(n) => if n <= 10 then 17 else 18
  }

  /** Its symbol, and how long it is: in two, three or seven bits, beyond the shortest run of its kind. */
  function RunBits(r: Run, code: seq<nat>): seq<bool>
    requires RunFits(r) && Used(code, RunSymbol(r))
  {
    match r
    case One(l) => CodeBits(code, l)
    case Again(n) => CodeBits(code, 16) + Digits(n - 3, 2)
    case Zeros(n) => if n <= 10 then CodeBits(code, 17) + Digits(n - 3, 3) else CodeBits(code, 18) + Digits(n - 11, 7)
  }

  predicate Sendable(runs: seq<Run>, code: seq<nat>) {
    forall i | 0 <= i < |runs| :: RunFits(runs[i]) && Used(code, RunSymbol(runs[i]))
  }

  function RunsBits(runs: seq<Run>, code: seq<nat>): seq<bool>
    requires Sendable(runs, code)
  {
    if runs == [] then [] else RunBits(runs[0], code) + RunsBits(runs[1..], code)
  }

  // ---- what the decoder makes of them --------------------------------------------------------

  function OpOf(r: Run): LengthOp
    requires RunFits(r)
  {
    match r
    case One(l) => Plain(l)
    case Again(n) => RepeatPrevious(n - 3)
    case Zeros(n) => if n <= 10 then ShortZeros(n - 3) else LongZeros(n - 11)
  }

  function OpsOf(runs: seq<Run>): (ops: seq<LengthOp>)
    requires forall i | 0 <= i < |runs| :: RunFits(runs[i])
    ensures |ops| == |runs|
  {
    if runs == [] then [] else [OpOf(runs[0])] + OpsOf(runs[1..])
  }

  lemma OpOfMeans(r: Run, before: seq<nat>, code: seq<nat>)
    requires RunFits(r) && Used(code, RunSymbol(r)) && (r.Again? ==> before != [])
    ensures OpLegal(OpOf(r), code, before) && ApplyOp(before, OpOf(r)) == before + Stretch(r, before)
    ensures OpBits(OpOf(r), code) == RunBits(r, code)
  {
    hide CodeBits, Digits;
    if r.One? { assert CodeBits(code, r.length) + [] == CodeBits(code, r.length); }
  }

  lemma {:induction false} OpsOfMean(runs: seq<Run>, before: seq<nat>, code: seq<nat>)
    requires RunsLegal(runs, before) && Sendable(runs, code)
    ensures var need := |Spelled(runs, before)|;
      && OpsLegal(OpsOf(runs), code, before, need)
      && OpsResult(OpsOf(runs), code, before, need) == Spelled(runs, before)
      && OpsBits(OpsOf(runs), code, before, need) == RunsBits(runs, code)
    decreases |runs|
  {
    hide OpOf, OpLegal, ApplyOp, OpBits, RunBits, Stretch, RunFits, RunSymbol;
    if runs != [] {
      OpOfMeans(runs[0], before, code);
      OpsOfMean(runs[1..], before + Stretch(runs[0], before), code);
      assert OpsOf(runs)[0] == OpOf(runs[0]) && OpsOf(runs)[1..] == OpsOf(runs[1..]);
    }
  }

  lemma SendableFits(runs: seq<Run>, code: seq<nat>)
    requires Sendable(runs, code)
    ensures forall i | 0 <= i < |runs| :: RunFits(runs[i])
  {
    hide RunFits, RunSymbol;
  }

  /** Whatever runs are sent, the code lengths they spell are read. */
  lemma RunsRead(runs: seq<Run>, code: seq<nat>, bits: seq<bool>, pos: nat)
    requires Accepted(code) && |code| == 19 && RunsLegal(runs, []) && Sendable(runs, code)
    requires At(bits, pos, RunsBits(runs, code))
    ensures ParseOps(code, bits, pos, [], |Spelled(runs, [])|)
      == Some(Lengths(Spelled(runs, []), pos + |RunsBits(runs, code)|))
  {
    hide Accepted, RunsLegal, ParseOps, OpsLegal, At, Sendable, OpsOf, OpsBits, OpsResult, RunsBits, Spelled;
    SendableFits(runs, code);
    OpsOfMean(runs, [], code);
    InflateTheory.OpsComplete(code, bits, pos, OpsOf(runs), [], |Spelled(runs, [])|);
  }

  // ---- choosing the runs ---------------------------------------------------------------------

  /** How many of the first `cap` code lengths are `x`, up to the first that is not. */
  function Leading(ls: seq<nat>, x: nat, cap: nat): (n: nat)
    ensures n <= cap && n <= |ls| && ls[..n] == Fill(n, x)
  {
    if cap == 0 || ls == [] || ls[0] != x then 0 else 1 + Leading(ls[1..], x, cap - 1)
  }

  function Last(before: seq<nat>): Option<nat> { if before == [] then None else Some(before[|before| - 1]) }

  /** The longest run that applies, zeros first, is sent next. */
  function NextRun(ls: seq<nat>, last: Option<nat>): (r: Run)
    requires ls != []
  {
    var zeros := Leading(ls, 0, 138);
    var again := if last.None? then 0 else Leading(ls, last.value, 6);
    if zeros >= 3 then Zeros(zeros) else if again >= 3 then Again(again) else One(ls[0])
  }

  lemma NextRunMeans(ls: seq<nat>, before: seq<nat>)
    requires ls != [] && forall i | 0 <= i < |ls| :: ls[i] <= 15
    ensures var r := NextRun(ls, Last(before));
      && RunFits(r) && (r.Again? ==> before != [])
      && 0 < |Stretch(r, before)| <= |ls| && ls[..|Stretch(r, before)|] == Stretch(r, before)
  {
    hide Leading;
  }

  function RunsFor(ls: seq<nat>, before: seq<nat>): seq<Run>
    requires forall i | 0 <= i < |ls| :: ls[i] <= 15
    decreases |ls|
  {
    if ls == [] then []
    else
      NextRunMeans(ls, before);
      var r := NextRun(ls, Last(before));
      [r] + RunsFor(ls[|Stretch(r, before)|..], before + Stretch(r, before))
  }

  /** Every vector of code lengths is spelled by the runs chosen for it. */
  lemma {:induction false} RunsForSpell(ls: seq<nat>, before: seq<nat>)
    requires forall i | 0 <= i < |ls| :: ls[i] <= 15
    ensures RunsLegal(RunsFor(ls, before), before) && Spelled(RunsFor(ls, before), before) == before + ls
    decreases |ls|
  {
    hide NextRun, Stretch, RunFits, Last;
    if ls == [] {
      assert before + [] == before;
    } else {
      NextRunMeans(ls, before);
      var r := NextRun(ls, Last(before));
      var n, longer := |Stretch(r, before)|, before + Stretch(r, before);
      RunsForSpell(ls[n..], longer);
      assert RunsFor(ls, before)[1..] == RunsFor(ls[n..], longer);
      assert longer + ls[n..] == before + ls by { assert ls == ls[..n] + ls[n..]; }
    }
  }

  /** A code for code lengths that gives every symbol a code: thirteen of four bits, six of five. */
  const FULL_CODE: seq<nat> := [4, 4, 4, 4, 4, 4, 4, 4, 4, 4, 4, 4, 4, 5, 5, 5, 5, 5, 5]

  lemma {:induction false} LegalIsSendable(runs: seq<Run>, before: seq<nat>)
    requires RunsLegal(runs, before)
    ensures Sendable(runs, FULL_CODE)
    decreases |runs|
  {
    hide Stretch;
    if runs != [] {
      LegalIsSendable(runs[1..], before + Stretch(runs[0], before));
      assert Used(FULL_CODE, RunSymbol(runs[0]));
      assert forall i | 1 <= i < |runs| :: runs[i] == runs[1..][i - 1];
    }
  }

  // ---- headers -------------------------------------------------------------------------------

  /** The code lengths of a code length code in the order in which they are sent. */
  function SentFor(code: seq<nat>): (r: seq<nat>)
    requires |code| == 19
    ensures |r| == 19
  {
    [code[16], code[17], code[18], code[0], code[8], code[7], code[9], code[6], code[10], code[5], code[11], code[4],
     code[12], code[3], code[13], code[2], code[14], code[1], code[15]]
  }

  lemma OrderInjective()
    ensures |ORDER| == 19 && forall k | 0 <= k < 19 :: ORDER[k] < 19
    ensures forall j, k | 0 <= j < k < 19 :: ORDER[j] != ORDER[k]
  {
    var position := [3, 17, 15, 13, 11, 9, 7, 5, 4, 6, 8, 10, 12, 14, 16, 18, 0, 1, 2];
    assert forall k | 0 <= k < 19 :: position[ORDER[k]] == k;
  }

  /** Each length sent is put where it belongs, the others are zero. */
  lemma {:induction false} SentPlaced(sent: seq<nat>)
    requires |sent| <= 19
    ensures |ORDER| == 19 && forall k | 0 <= k < 19 :: ORDER[k] < 19
    ensures forall k | 0 <= k < 19 :: CodeLengthCode(sent)[ORDER[k]] == if k < |sent| then sent[k] else 0
    decreases |sent|
  {
    hide ORDER;
    OrderInjective();
    if sent != [] { SentPlaced(sent[..|sent| - 1]); }
  }

  lemma SentForOrder(code: seq<nat>, i: nat) returns (k: nat)
    requires |code| == 19 && i < 19
    ensures k < 19 && ORDER[k] == i && SentFor(code)[k] == code[i]
  {
    var position := [3, 17, 15, 13, 11, 9, 7, 5, 4, 6, 8, 10, 12, 14, 16, 18, 0, 1, 2];
    k := position[i];
  }

  /** All of them, or all up to the last that is not zero, give back the code. */
  lemma SentForMeans(code: seq<nat>, n: nat)
    requires |code| == 19 && n <= 19 && forall k | n <= k < 19 :: SentFor(code)[k] == 0
    ensures CodeLengthCode(SentFor(code)[..n]) == code
  {
    hide CodeLengthCode;
    SentPlaced(SentFor(code)[..n]);
    forall i | 0 <= i < 19
      ensures CodeLengthCode(SentFor(code)[..n])[i] == code[i]
    {
      var k := SentForOrder(code, i);
    }
  }

  /** `code` sends the runs, `runs` spell both vectors, and no length left out is needed. */
  ghost predicate RunHeaderLegal(lit: seq<nat>, dist: seq<nat>, code: seq<nat>, n: nat, runs: seq<Run>) {
    && DeflateEncoder.CodesLegal(lit, dist) && |code| == 19 && Accepted(code) && 4 <= n <= 19
    && (forall i | 0 <= i < 19 :: code[i] < 8) && (forall k | n <= k < 19 :: SentFor(code)[k] == 0)
    && RunsLegal(runs, []) && Sendable(runs, code) && Spelled(runs, []) == lit + dist
  }

  /** The header that announces the codes `lit` and `dist` by these runs. */
  ghost function RunHeader(lit: seq<nat>, dist: seq<nat>, code: seq<nat>, n: nat, runs: seq<Run>): seq<bool>
    requires RunHeaderLegal(lit, dist, code, n, runs)
  {
    Digits(|lit| - 257, 5) + (Digits(|dist| - 1, 5) + (Digits(n - 4, 4) +
    (SentBits(SentFor(code)[..n]) + RunsBits(runs, code))))
  }

  function HeaderOf(lit: seq<nat>, dist: seq<nat>, code: seq<nat>, n: nat, runs: seq<Run>): Header
    requires |lit| >= 257 && |dist| >= 1 && |code| == 19 && n <= 19
    requires forall i | 0 <= i < |runs| :: RunFits(runs[i])
  {
    Header(|lit| - 257, |dist| - 1, SentFor(code)[..n], OpsOf(runs))
  }

  lemma HeaderSized(lit: seq<nat>, dist: seq<nat>, code: seq<nat>, n: nat, runs: seq<Run>)
    requires RunHeaderLegal(lit, dist, code, n, runs)
    ensures 257 <= |lit| <= 288 && 1 <= |dist| <= 32 && |code| == 19 && 4 <= n <= 19
    ensures forall i | 0 <= i < |runs| :: RunFits(runs[i])
  {
    hide RunFits, Accepted, SentFor, RunsLegal, Spelled;
  }

  lemma HeaderOfMeans(lit: seq<nat>, dist: seq<nat>, code: seq<nat>, n: nat, runs: seq<Run>)
    requires RunHeaderLegal(lit, dist, code, n, runs)
    ensures 257 <= |lit| && 1 <= |dist| && |code| == 19 && n <= 19 && forall i | 0 <= i < |runs| :: RunFits(runs[i])
    ensures var h := HeaderOf(lit, dist, code, n, runs);
      && HeaderLegal(h) && HeaderBits(h) == RunHeader(lit, dist, code, n, runs)
      && LiteralLengths(h) == lit && DistanceLengths(h) == dist
  {
    hide RunFits, Accepted, SentFor, CodeLengthCode, RunsLegal, Spelled, Sendable, OpsLegal, Digits, SentBits, RunsBits, OpsBits,
      OpsOf, OpsResult;
    HeaderSized(lit, dist, code, n, runs);
    SentForMeans(code, n);
    OpsOfMean(runs, [], code);
    assert (lit + dist)[..|lit|] == lit && (lit + dist)[|lit|..] == dist;
    assert forall i | 0 <= i < n :: SentFor(code)[..n][i] < 8 by { SentSmall(code, n); }
  }

  lemma SentSmall(code: seq<nat>, n: nat)
    requires |code| == 19 && n <= 19 && forall i | 0 <= i < 19 :: code[i] < 8
    ensures forall i | 0 <= i < n :: SentFor(code)[..n][i] < 8
  {
  }

  /** Whatever pair of codes is announced by runs, and however they are chosen, is read back as itself. */
  lemma RunHeaderReads(lit: seq<nat>, dist: seq<nat>, code: seq<nat>, n: nat, runs: seq<Run>, bits: seq<bool>, pos: nat)
    requires RunHeaderLegal(lit, dist, code, n, runs) && At(bits, pos, RunHeader(lit, dist, code, n, runs))
    ensures ParseHeader(bits, pos) == Some(Tables(lit, dist, pos + |RunHeader(lit, dist, code, n, runs)|))
  {
    hide RunHeaderLegal, HeaderLegal, RunHeader, HeaderBits, ParseHeader, At, LiteralLengths, DistanceLengths;
    HeaderOfMeans(lit, dist, code, n, runs);
    InflateTheory.HeaderComplete(bits, pos, HeaderOf(lit, dist, code, n, runs));
  }

  lemma FullCodeAccepted()
    ensures Accepted(FULL_CODE) && |FULL_CODE| == 19 && forall i | 0 <= i < 19 :: FULL_CODE[i] < 8
  {
    hide Accepted;
    assert FULL_CODE == Fill(13, 4) + Fill(6, 5);
    KraftFill(13, 4);
    KraftFill(6, 5);
    KraftConcat(Fill(13, 4), Fill(6, 5));
    PowersOfTwo();
    assert Pow2(11) == 2 * Pow2(10);
    AcceptedIffKraft(FULL_CODE);
  }

  /** Any two acceptable codes can be announced by runs. */
  lemma AnyCodesByRuns(lit: seq<nat>, dist: seq<nat>)
    requires DeflateEncoder.CodesLegal(lit, dist)
    ensures forall i | 0 <= i < |lit + dist| :: (lit + dist)[i] <= 15
    ensures RunHeaderLegal(lit, dist, FULL_CODE, 19, RunsFor(lit + dist, []))
  {
    hide Accepted, RunsFor, Sendable, RunsLegal, Spelled, SentFor, FULL_CODE;
    DeflateEncoder.BothBound(lit, dist);
    FullCodeAccepted();
    RunsForSpell(lit + dist, []);
    LegalIsSendable(RunsFor(lit + dist, []), []);
    assert [] + (lit + dist) == lit + dist;
  }

  // ---- a whole stream ------------------------------------------------------------------------

  /** A stream of one dynamic block: last block, type 2, the header, the elements. */
  ghost function RunStream(lit: seq<nat>, dist: seq<nat>, code: seq<nat>, n: nat, runs: seq<Run>, es: seq<Element>): seq<bool>
    requires RunHeaderLegal(lit, dist, code, n, runs) && ElementsLegal(es, lit, dist, [])
  {
    [true, false, true] + (RunHeader(lit, dist, code, n, runs) + ElementsBits(es, lit, dist, []))
  }

  lemma RunStreamIsBlock(lit: seq<nat>, dist: seq<nat>, code: seq<nat>, n: nat, runs: seq<Run>, es: seq<Element>)
    returns (b: Block)
    requires RunHeaderLegal(lit, dist, code, n, runs) && ElementsLegal(es, lit, dist, [])
    ensures BlockLegal(b, 0, []) && StreamBits([b], 0, []) == RunStream(lit, dist, code, n, runs, es)
    ensures ExpandStream([b], 0, []) == ExpandElements(es, lit, dist, [])
  {
    hide RunHeaderLegal, HeaderLegal, RunHeader, HeaderBits, LiteralLengths, DistanceLengths, ElementsLegal, ElementsBits,
      ExpandElements;
    HeaderOfMeans(lit, dist, code, n, runs);
    b := Dynamic(HeaderOf(lit, dist, code, n, runs), es);
    assert Digits(1, 1) == [true] && Digits(2, 2) == [false, true];
    var body := RunHeader(lit, dist, code, n, runs) + ElementsBits(es, lit, dist, []);
    assert [true] + ([false, true] + body) == [true, false, true] + body;
  }

  /** Inflating a stream whose header was written by runs gives the expansion of its elements. */
  lemma RunStreamInflates(lit: seq<nat>, dist: seq<nat>, code: seq<nat>, n: nat, runs: seq<Run>, es: seq<Element>,
                          input: seq<byte>)
    requires RunHeaderLegal(lit, dist, code, n, runs) && ElementsLegal(es, lit, dist, [])
    requires At(BitsOf(input), 0, RunStream(lit, dist, code, n, runs, es))
    requires |input| == (|RunStream(lit, dist, code, n, runs, es)| + 7) / 8
    ensures var out := ExpandElements(es, lit, dist, []);
      Inflate(input, |out|) == Some(out)
  {
    hide RunHeaderLegal, ElementsLegal, RunStream, ExpandElements, At, BitsOf, Inflate, BlockLegal;
    var b := RunStreamIsBlock(lit, dist, code, n, runs, es);
    var out := ExpandElements(es, lit, dist, []);
    OneBlockLegal(b);
    assert InflateTheory.Encodes(input, [b]) && ExpandStream([b], 0, []) == out;
    InflateTheory.InflateExact(input, |out|, out);
  }

  lemma OneBlockLegal(b: Block)
    requires BlockLegal(b, 0, [])
    ensures StreamLegal([b], 0, [])
  {
    hide BlockLegal;
  }
}
