/**
 The decoder inverts the grammar: `Inflate` succeeds on exactly the byte strings that are the encoding of
 some legal list of blocks, and then yields what those blocks expand to.
 */
module InflateTheory {
  import opened Bytes
  import opened BitStream
  import opened Huffman
  import opened Deflate
  import opened Inflater

  // ---- items ---------------------------------------------------------------------------------

  lemma CopyAt(e: Element, lit: seq<nat>, dist: seq<nat>, bits: seq<bool>, pos: nat)
    requires e.Copy? && Encodable(e, lit, dist)
    ensures At(bits, pos, ElementBits(e, lit, dist)) <==>
      var n, m := LENGTH_EXTRA[e.lengthSymbol - 257], DISTANCE_EXTRA[e.distanceSymbol];
      var p := pos + lit[e.lengthSymbol];
      && At(bits, pos, CodeBits(lit, e.lengthSymbol)) && At(bits, p, Digits(e.lengthExtra, n))
      && At(bits, p + n, CodeBits(dist, e.distanceSymbol))
      && At(bits, p + n + dist[e.distanceSymbol], Digits(e.distanceExtra, m))
    ensures |ElementBits(e, lit, dist)| == lit[e.lengthSymbol] + LENGTH_EXTRA[e.lengthSymbol - 257]
      + dist[e.distanceSymbol] + DISTANCE_EXTRA[e.distanceSymbol]
  {
    hide CodeBits, Digits, At, Pow2, LENGTH_EXTRA, DISTANCE_EXTRA;
    TablesStart();
    var n, m := LENGTH_EXTRA[e.lengthSymbol - 257], DISTANCE_EXTRA[e.distanceSymbol];
    var p := pos + lit[e.lengthSymbol];
    var a, b := CodeBits(lit, e.lengthSymbol), Digits(e.lengthExtra, n);
    var c, d := CodeBits(dist, e.distanceSymbol), Digits(e.distanceExtra, m);
    AtConcat(bits, pos, a, b + (c + d));
    AtConcat(bits, p, b, c + d);
    AtConcat(bits, p + n, c, d);
  }

  lemma CopyComplete(lit: seq<nat>, dist: seq<nat>, bits: seq<bool>, pos: nat, e: Element)
    requires Accepted(lit) && Accepted(dist) && e.Copy?
    requires Encodable(e, lit, dist) && At(bits, pos, ElementBits(e, lit, dist))
    ensures ParseItem(lit, dist, bits, pos) == Some(Item(Some(e), pos + |ElementBits(e, lit, dist)|))
  {
    hide Accepted, CodeBits, Digits, Value, Pow2, At, Symbol, Field, ElementBits, LENGTH_EXTRA, DISTANCE_EXTRA;
    TablesStart();
    var Copy(ls, le, ds, de) := e;
    var n, m := LENGTH_EXTRA[ls - 257], DISTANCE_EXTRA[ds];
    var p := pos + lit[ls];
    CopyAt(e, lit, dist, bits, pos);
    SymbolAt(lit, bits, pos, ls);
    FieldAt(bits, p, n, le);
    SymbolAt(dist, bits, p + n, ds);
    FieldAt(bits, p + n + dist[ds], m, de);
  }

  lemma CopySound(lit: seq<nat>, dist: seq<nat>, bits: seq<bool>, pos: nat, e: Element, next: nat)
    requires Accepted(lit) && Accepted(dist) && e.Copy?
    requires ParseItem(lit, dist, bits, pos) == Some(Item(Some(e), next))
    ensures Encodable(e, lit, dist) && At(bits, pos, ElementBits(e, lit, dist))
    ensures next == pos + |ElementBits(e, lit, dist)|
  {
    hide Accepted, CodeBits, Digits, Value, Pow2, At, Symbol, Field, ElementBits, LENGTH_EXTRA, DISTANCE_EXTRA;
    TablesStart();
    var Copy(ls, le, ds, de) := e;
    var n, m := LENGTH_EXTRA[ls - 257], DISTANCE_EXTRA[ds];
    var p := pos + lit[ls];
    SymbolAt(lit, bits, pos, ls);
    FieldAt(bits, p, n, le);
    SymbolAt(dist, bits, p + n, ds);
    FieldAt(bits, p + n + dist[ds], m, de);
    CopyAt(e, lit, dist, bits, pos);
  }

  /** An element is decoded exactly where its bits stand. */
  lemma ElementExact(lit: seq<nat>, dist: seq<nat>, bits: seq<bool>, pos: nat, e: Element, next: nat)
    requires Accepted(lit) && Accepted(dist)
    ensures ParseItem(lit, dist, bits, pos) == Some(Item(Some(e), next)) <==>
      && Encodable(e, lit, dist) && At(bits, pos, ElementBits(e, lit, dist))
      && next == pos + |ElementBits(e, lit, dist)|
  {
    hide Accepted, CodeBits, Digits, Value, Pow2, At, Symbol, Field;
    match e {
      case Literal(v) => SymbolAt(lit, bits, pos, v);
      case Copy(_, _, _, _) =>
        if ParseItem(lit, dist, bits, pos) == Some(Item(Some(e), next)) {
          CopySound(lit, dist, bits, pos, e, next);
        } else if Encodable(e, lit, dist) && At(bits, pos, ElementBits(e, lit, dist)) {
          CopyComplete(lit, dist, bits, pos, e);
        }
    }
  }

  lemma EndExact(lit: seq<nat>, dist: seq<nat>, bits: seq<bool>, pos: nat, next: nat)
    requires Accepted(lit) && Accepted(dist)
    ensures ParseItem(lit, dist, bits, pos) == Some(Item(None, next)) <==>
      && Used(lit, END_OF_BLOCK) && At(bits, pos, CodeBits(lit, END_OF_BLOCK)) && next == pos + lit[END_OF_BLOCK]
  {
    hide Accepted, CodeBits, Digits, Value, Pow2, At, Symbol, Field;
    SymbolAt(lit, bits, pos, END_OF_BLOCK);
  }

  // ---- the elements of a block ---------------------------------------------------------------

  lemma {:induction false} ElementsComplete(lit: seq<nat>, dist: seq<nat>, bits: seq<bool>, pos: nat,
                                            es: seq<Element>, out: seq<byte>, expected: nat)
    requires Accepted(lit) && Accepted(dist)
    requires ElementsLegal(es, lit, dist, out) && At(bits, pos, ElementsBits(es, lit, dist, out))
    requires |ExpandElements(es, lit, dist, out)| <= expected
    ensures ParseElements(lit, dist, bits, pos, out, expected)
      == Some(Output(ExpandElements(es, lit, dist, out), pos + |ElementsBits(es, lit, dist, out)|))
    decreases |es|
  {
    hide Accepted, ParseItem, ElementBits, CodeBits, Encodable, Applicable, Apply, At;
    if es == [] {
      EndExact(lit, dist, bits, pos, pos + lit[END_OF_BLOCK]);
    } else {
      var e, rest := es[0], Apply(out, es[0]);
      var w := ElementBits(e, lit, dist);
      AtConcat(bits, pos, w, ElementsBits(es[1..], lit, dist, rest));
      ElementExact(lit, dist, bits, pos, e, pos + |w|);
      ElementsComplete(lit, dist, bits, pos + |w|, es[1..], rest, expected);
      assert Room(out, e, expected);
    }
  }

  lemma {:induction false} ElementsSound(lit: seq<nat>, dist: seq<nat>, bits: seq<bool>, pos: nat,
                                         out: seq<byte>, expected: nat) returns (es: seq<Element>)
    requires Accepted(lit) && Accepted(dist)
    requires ParseElements(lit, dist, bits, pos, out, expected).Some?
    ensures ElementsLegal(es, lit, dist, out) && At(bits, pos, ElementsBits(es, lit, dist, out))
    ensures ParseElements(lit, dist, bits, pos, out, expected)
      == Some(Output(ExpandElements(es, lit, dist, out), pos + |ElementsBits(es, lit, dist, out)|))
    decreases |bits| - pos
  {
    hide Accepted, ParseItem, ElementBits, CodeBits, Encodable, Applicable, Apply, At;
    var item := ParseItem(lit, dist, bits, pos).value;
    match item.element {
      case None =>
        EndExact(lit, dist, bits, pos, item.next);
        es := [];
      case Some(e) =>
        ElementExact(lit, dist, bits, pos, e, item.next);
        assert Room(out, e, expected);
        var rest := Apply(out, e);
        var tail := ElementsSound(lit, dist, bits, item.next, rest, expected);
        es := [e] + tail;
        assert es[1..] == tail;
        AtConcat(bits, pos, ElementBits(e, lit, dist), ElementsBits(tail, lit, dist, rest));
    }
  }

  // ---- dynamic headers -----------------------------------------------------------------------

  lemma OpExact(codes: seq<nat>, bits: seq<bool>, pos: nat, op: LengthOp, next: nat)
    requires Accepted(codes) && |codes| == 19
    ensures ParseOp(codes, bits, pos) == Some(ParsedOp(op, next)) <==>
      && WellFormedOp(op) && Used(codes, OpSymbol(op)) && At(bits, pos, OpBits(op, codes))
      && next == pos + |OpBits(op, codes)|
  {
    hide Accepted, CodeBits, Digits, Value, At, Symbol, Field;
    var s := OpSymbol(op);
    SymbolAt(codes, bits, pos, s);
    assert Pow2(2) == 4 && Pow2(3) == 8 && Pow2(7) == 128 by { PowersOfTwo(); }
    if s < 19 && Used(codes, s) {
      var p := pos + codes[s];
      AtConcat(bits, pos, CodeBits(codes, s), OpExtra(op));
      match op {
        case Plain(l) => assert CodeBits(codes, s) + [] == CodeBits(codes, s);
        case RepeatPrevious(x) => FieldAt(bits, p, 2, x);
        case ShortZeros(x) => FieldAt(bits, p, 3, x);
        case LongZeros(x) => FieldAt(bits, p, 7, x);
      }
    }
  }

  lemma OpGrows(acc: seq<nat>, op: LengthOp)
    requires op.RepeatPrevious? ==> acc != []
    ensures |acc| < |ApplyOp(acc, op)|
  {
  }

  lemma {:induction false} OpsComplete(codes: seq<nat>, bits: seq<bool>, pos: nat, ops: seq<LengthOp>,
                                       acc: seq<nat>, need: nat)
    requires Accepted(codes) && |codes| == 19 && OpsLegal(ops, codes, acc, need)
    requires At(bits, pos, OpsBits(ops, codes, acc, need))
    ensures |acc| <= need
    ensures ParseOps(codes, bits, pos, acc, need)
      == Some(Lengths(OpsResult(ops, codes, acc, need), pos + |OpsBits(ops, codes, acc, need)|))
    decreases |ops|
  {
    hide Accepted, ParseOp, CodeBits, At, OpBits, ApplyOp;
    if ops != [] {
      var op, longer := ops[0], ApplyOp(acc, ops[0]);
      var w := OpBits(op, codes);
      AtConcat(bits, pos, w, OpsBits(ops[1..], codes, longer, need));
      OpExact(codes, bits, pos, op, pos + |w|);
      OpsComplete(codes, bits, pos + |w|, ops[1..], longer, need);
      OpGrows(acc, op);
    }
  }

  lemma {:induction false} OpsSound(codes: seq<nat>, bits: seq<bool>, pos: nat, acc: seq<nat>, need: nat)
    returns (ops: seq<LengthOp>)
    requires Accepted(codes) && |codes| == 19 && |acc| <= need && pos <= |bits|
    requires ParseOps(codes, bits, pos, acc, need).Some?
    ensures OpsLegal(ops, codes, acc, need) && At(bits, pos, OpsBits(ops, codes, acc, need))
    ensures ParseOps(codes, bits, pos, acc, need)
      == Some(Lengths(OpsResult(ops, codes, acc, need), pos + |OpsBits(ops, codes, acc, need)|))
    decreases need - |acc|
  {
    hide Accepted, ParseOp, CodeBits, OpBits, ApplyOp;
    if |acc| == need {
      ops := [];
    } else {
      var ParsedOp(op, next) := ParseOp(codes, bits, pos).value;
      OpExact(codes, bits, pos, op, next);
      var longer := ApplyOp(acc, op);
      var tail := OpsSound(codes, bits, next, longer, need);
      ops := [op] + tail;
      assert ops[1..] == tail;
      AtConcat(bits, pos, OpBits(op, codes), OpsBits(tail, codes, longer, need));
    }
  }

  /** Three-bit fields: what is read is what was sent. */
  lemma SentExact(bits: seq<bool>, pos: nat, sent: seq<nat>)
    requires pos <= |bits|
    ensures ParseSent(bits, pos, |sent|) == Some(sent) <==>
      (forall i | 0 <= i < |sent| :: sent[i] < 8) && At(bits, pos, SentBits(sent))
  {
    hide ParseSent, SentBits, At;
    SentAt(bits, pos, sent);
  }

  predicate Small(sent: seq<nat>) { forall i | 0 <= i < |sent| :: sent[i] < 8 }

  lemma SmallSnoc(front: seq<nat>, x: nat)
    ensures Small(front + [x]) <==> Small(front) && x < 8
  {
    var all := front + [x];
    assert all[|front|] == x && forall i | 0 <= i < |front| :: all[i] == front[i];
  }

  lemma {:induction false} SentAt(bits: seq<bool>, pos: nat, sent: seq<nat>)
    requires pos <= |bits|
    ensures ParseSent(bits, pos, |sent|) == Some(sent) <==> Small(sent) && At(bits, pos, SentBits(sent))
    decreases |sent|
  {
    hide Digits, Field, At, ParseSent, SentBits, Small;
    if sent == [] {
      NothingSentAt(bits, pos);
    } else {
      var n := |sent| - 1;
      var front, x := sent[..n], sent[n];
      SentAt(bits, pos, front);
      SmallSnoc(front, x);
      assert sent == front + [x];
      ParseSentSnoc(bits, pos, front, x);
      SentBitsSnoc(front, x);
      LengthAt(bits, pos + 3 * n, x);
      AtConcat(bits, pos, SentBits(front), Digits(x, 3));
    }
  }

  lemma NothingSentAt(bits: seq<bool>, pos: nat)
    requires pos <= |bits|
    ensures ParseSent(bits, pos, 0) == Some([]) && Small([]) && At(bits, pos, SentBits([]))
  {
  }

  lemma ParseSentSnoc(bits: seq<bool>, pos: nat, front: seq<nat>, x: nat)
    ensures ParseSent(bits, pos, |front| + 1) == Some(front + [x]) <==>
      ParseSent(bits, pos, |front|) == Some(front) && Field(bits, pos + 3 * |front|, 3) == Some(x)
  {
    hide Field;
    assert (front + [x])[..|front|] == front && (front + [x])[|front|] == x;
  }

  lemma {:induction false} SentBitsSnoc(front: seq<nat>, x: nat)
    ensures SentBits(front + [x]) == SentBits(front) + Digits(x, 3) && |SentBits(front)| == 3 * |front|
  {
    hide Digits;
    assert (front + [x])[..|front|] == front;
  }

  lemma LengthAt(bits: seq<bool>, pos: nat, x: nat)
    ensures Field(bits, pos, 3) == Some(x) <==> x < 8 && At(bits, pos, Digits(x, 3))
  {
    assert Pow2(3) == 8;
    hide Pow2, Field, At, Digits;
    FieldAt(bits, pos, 3, x);
  }

  ghost function TailBits(h: Header): seq<bool>
    requires HeaderLegal(h)
  {
    SentBits(h.sent) + OpsBits(h.ops, CodeLengthCode(h.sent), [], Need(h))
  }

  lemma HeaderAt(h: Header, bits: seq<bool>, pos: nat)
    requires HeaderLegal(h)
    ensures At(bits, pos, HeaderBits(h)) <==>
      && At(bits, pos, Digits(h.hlit, 5)) && At(bits, pos + 5, Digits(h.hdist, 5))
      && At(bits, pos + 10, Digits(|h.sent| - 4, 4)) && At(bits, pos + 14, SentBits(h.sent))
      && At(bits, pos + 14 + 3 * |h.sent|, OpsBits(h.ops, CodeLengthCode(h.sent), [], Need(h)))
    ensures |HeaderBits(h)| == 14 + |TailBits(h)|
  {
    hide HeaderLegal, At, Accepted, OpsBits, Digits, SentBits, CodeLengthCode;
    HeaderParts(h);
    var ops := OpsBits(h.ops, CodeLengthCode(h.sent), [], Need(h));
    AtConcat(bits, pos, Digits(h.hlit, 5), Digits(h.hdist, 5) + (Digits(|h.sent| - 4, 4) + TailBits(h)));
    AtConcat(bits, pos + 5, Digits(h.hdist, 5), Digits(|h.sent| - 4, 4) + TailBits(h));
    AtConcat(bits, pos + 10, Digits(|h.sent| - 4, 4), TailBits(h));
    AtConcat(bits, pos + 14, SentBits(h.sent), ops);
  }

  lemma HeaderParts(h: Header)
    requires HeaderLegal(h)
    ensures 4 <= |h.sent| <= 19 && OpsLegal(h.ops, CodeLengthCode(h.sent), [], Need(h))
  {
  }

  lemma HeaderComplete(bits: seq<bool>, pos: nat, h: Header)
    requires HeaderLegal(h) && At(bits, pos, HeaderBits(h))
    ensures ParseHeader(bits, pos)
      == Some(Tables(LiteralLengths(h), DistanceLengths(h), pos + |HeaderBits(h)|))
  {
    hide Accepted, OpsBits, Digits, SentBits, Value, At, HeaderBits, ParseOps, CodeLengthCode, Field, ParseSent;
    HeaderAt(h, bits, pos);
    assert Pow2(5) == 32 && Pow2(4) == 16 by { PowersOfTwo(); }
    FieldAt(bits, pos, 5, h.hlit);
    FieldAt(bits, pos + 5, 5, h.hdist);
    FieldAt(bits, pos + 10, 4, |h.sent| - 4);
    assert pos + 14 <= |bits| by { AtWithin(bits, pos + 10, Digits(|h.sent| - 4, 4)); }
    SentExact(bits, pos + 14, h.sent);
    OpsComplete(CodeLengthCode(h.sent), bits, pos + 14 + 3 * |h.sent|, h.ops, [], Need(h));
  }

  lemma AtWithin(bits: seq<bool>, pos: nat, w: seq<bool>)
    requires At(bits, pos, w)
    ensures pos + |w| <= |bits|
  {
  }

  lemma HeaderSound(bits: seq<bool>, pos: nat) returns (h: Header)
    requires ParseHeader(bits, pos).Some?
    ensures HeaderLegal(h) && At(bits, pos, HeaderBits(h))
    ensures ParseHeader(bits, pos)
      == Some(Tables(LiteralLengths(h), DistanceLengths(h), pos + |HeaderBits(h)|))
  {
    hide Accepted, OpsBits, Digits, SentBits, Value, At, HeaderBits, ParseOps, CodeLengthCode, Field, ParseSent;
    assert Pow2(5) == 32 && Pow2(4) == 16 by { PowersOfTwo(); }
    var hlit, hdist := Field(bits, pos, 5).value, Field(bits, pos + 5, 5).value;
    var n := Field(bits, pos + 10, 4).value + 4;
    FieldAt(bits, pos, 5, hlit);
    FieldAt(bits, pos + 5, 5, hdist);
    FieldAt(bits, pos + 10, 4, n - 4);
    AtWithin(bits, pos + 10, Digits(n - 4, 4));
    var sent := ParseSent(bits, pos + 14, n).value;
    SentExact(bits, pos + 14, sent);
    AtWithin(bits, pos + 14, SentBits(sent));
    var ops := OpsSound(CodeLengthCode(sent), bits, pos + 14 + 3 * n, [], hlit + 257 + hdist + 1);
    h := Header(hlit, hdist, sent, ops);
    HeaderAt(h, bits, pos);
  }

  // ---- stored blocks -------------------------------------------------------------------------

  lemma {:induction false} BytesExact(bits: seq<bool>, pos: nat, data: seq<byte>)
    requires pos <= |bits|
    ensures ParseBytes(bits, pos, |data|) == Some(data) <==> At(bits, pos, BytesBits(data))
    decreases |data|
  {
    if data == [] {
      assert ParseBytes(bits, pos, 0).value == [];
    } else if pos + 8 * |data| <= |bits| {
      hide Value, Digits;
      var rest := data[1..];
      BytesExact(bits, pos + 8, rest);
      FieldAt(bits, pos, 8, data[0]);
      Pow2Mono(8, 8);
      AtConcat(bits, pos, Digits(data[0], 8), BytesBits(rest));
      var all, tail := ParseBytes(bits, pos, |data|).value, ParseBytes(bits, pos + 8, |rest|).value;
      assert all[0] == ByteAt(bits, pos);
      assert forall i | 0 <= i < |rest| :: all[1 + i] == tail[i];
      assert all[1..] == tail;
      assert all == [all[0]] + all[1..] && data == [data[0]] + rest;
    }
  }

  lemma StoredAt(padding: seq<bool>, data: seq<byte>, bits: seq<bool>, pos: nat)
    requires |padding| == PaddingAt(pos) && |data| < 0x1_0000
    ensures At(bits, pos, StoredBits(padding, data)) <==>
      var p := AlignUp(pos);
      && At(bits, pos, padding) && At(bits, p, Digits(|data|, LENGTH_WIDTH))
      && At(bits, p + 16, Digits(0xffff - |data|, LENGTH_WIDTH))
      && At(bits, p + 32, BytesBits(data))
  {
    hide At, Digits, BytesBits;
    var p := AlignUp(pos);
    var a, b := Digits(|data|, LENGTH_WIDTH), Digits(0xffff - |data|, LENGTH_WIDTH);
    AtConcat(bits, pos, padding, a + (b + BytesBits(data)));
    AtConcat(bits, p, a, b + BytesBits(data));
    AtConcat(bits, p + 16, b, BytesBits(data));
  }

  lemma StoredComplete(bits: seq<bool>, pos: nat, padding: seq<bool>, data: seq<byte>, out: seq<byte>, expected: nat)
    requires |padding| == PaddingAt(pos) && |data| < 0x1_0000 && |out + data| <= expected
    requires At(bits, pos, StoredBits(padding, data))
    ensures ParseStored(bits, pos, out, expected)
      == Some(Output(out + data, pos + |padding| + 32 + |BytesBits(data)|))
  {
    hide At, Digits, BytesBits, Field, ParseBytes;
    var p := AlignUp(pos);
    StoredAt(padding, data, bits, pos);
    Pow2At16();
    FieldAt(bits, p, 16, |data|);
    FieldAt(bits, p + 16, 16, 0xffff - |data|);
    AtWithin(bits, p + 16, Digits(0xffff - |data|, LENGTH_WIDTH));
    BytesExact(bits, p + 32, data);
  }

  lemma Pow2At16()
    ensures Pow2(16) == 0x1_0000
  {
    PowersOfTwo();
    assert Pow2(16) == 2 * Pow2(15);
  }

  /** Whatever reads as a stored block is the encoding of one. */
  lemma StoredSound(bits: seq<bool>, pos: nat, out: seq<byte>, expected: nat)
    requires pos <= AlignUp(pos) <= |bits| && ParseStored(bits, pos, out, expected).Some?
    ensures var r := ParseStored(bits, pos, out, expected).value;
      var data := r.out[|out|..];
      && |data| < 0x1_0000 && At(bits, pos, StoredBits(bits[pos..AlignUp(pos)], data))
      && r == Output(out + data, AlignUp(pos) + 32 + |BytesBits(data)|)
  {
    hide At, Digits, BytesBits, Field, ParseBytes;
    var p := AlignUp(pos);
    var length, complement := Field(bits, p, 16).value, Field(bits, p + 16, 16).value;
    Pow2At16();
    FieldAt(bits, p, 16, length);
    FieldAt(bits, p + 16, 16, complement);
    AtWithin(bits, p + 16, Digits(complement, LENGTH_WIDTH));
    PaddingStands(bits, pos, p);
    var data := ParseBytes(bits, p + 32, length).value;
    assert (out + data)[|out|..] == data;
    BytesExact(bits, p + 32, data);
    StoredAt(bits[pos..p], data, bits, pos);
  }

  lemma StoredFits(bits: seq<bool>, pos: nat, out: seq<byte>, expected: nat)
    requires ParseStored(bits, pos, out, expected).Some?
    ensures pos <= AlignUp(pos) <= |bits|
  {
    hide ParseBytes;
  }

  lemma PaddingStands(bits: seq<bool>, pos: nat, p: nat)
    requires pos <= p <= |bits|
    ensures At(bits, pos, bits[pos..p])
  {
  }

  // ---- blocks and streams --------------------------------------------------------------------

  lemma DynamicComplete(bits: seq<bool>, pos: nat, h: Header, es: seq<Element>, out: seq<byte>, expected: nat)
    requires HeaderLegal(h) && ElementsLegal(es, LiteralLengths(h), DistanceLengths(h), out)
    requires At(bits, pos, HeaderBits(h) + ElementsBits(es, LiteralLengths(h), DistanceLengths(h), out))
    requires |ExpandElements(es, LiteralLengths(h), DistanceLengths(h), out)| <= expected
    ensures ParseHeader(bits, pos) == Some(Tables(LiteralLengths(h), DistanceLengths(h), pos + |HeaderBits(h)|))
    ensures ParseElements(LiteralLengths(h), DistanceLengths(h), bits, pos + |HeaderBits(h)|, out, expected)
      == Some(Output(ExpandElements(es, LiteralLengths(h), DistanceLengths(h), out),
          pos + |HeaderBits(h)| + |ElementsBits(es, LiteralLengths(h), DistanceLengths(h), out)|))
  {
    hide Accepted, At, ParseElements, ParseHeader, ElementsLegal, ElementsBits, HeaderBits, ExpandElements;
    var lit, dist := LiteralLengths(h), DistanceLengths(h);
    AtConcat(bits, pos, HeaderBits(h), ElementsBits(es, lit, dist, out));
    HeaderComplete(bits, pos, h);
    ElementsComplete(lit, dist, bits, pos + |HeaderBits(h)|, es, out, expected);
  }

  lemma BodyComplete(bits: seq<bool>, pos: nat, b: Block, out: seq<byte>, expected: nat)
    requires BlockLegal(b, pos, out) && At(bits, pos + 3, BodyBits(b, pos, out))
    requires |ExpandBlock(b, pos, out)| <= expected
    ensures ParseBody(BlockType(b), bits, pos + 3, out, expected)
      == Some(Output(ExpandBlock(b, pos, out), pos + 3 + |BodyBits(b, pos, out)|))
  {
    hide Accepted, At, ParseStored, ParseElements, ParseHeader, ElementsLegal, ElementsBits, HeaderBits,
      ExpandElements, Digits, BytesBits, HeaderLegal;
    match b {
      case Stored(padding, data) => StoredComplete(bits, pos + 3, padding, data, out, expected);
      case Fixed(es) =>
        FixedAccepted();
        ElementsComplete(FIXED_LITERALS, FIXED_DISTANCES, bits, pos + 3, es, out, expected);
      case Dynamic(h, es) => DynamicComplete(bits, pos + 3, h, es, out, expected);
    }
  }

  lemma BodySound(bits: seq<bool>, pos: nat, kind: nat, out: seq<byte>, expected: nat) returns (b: Block)
    requires ParseBody(kind, bits, pos + 3, out, expected).Some?
    ensures BlockLegal(b, pos, out) && At(bits, pos + 3, BodyBits(b, pos, out)) && BlockType(b) == kind
    ensures ParseBody(kind, bits, pos + 3, out, expected)
      == Some(Output(ExpandBlock(b, pos, out), pos + 3 + |BodyBits(b, pos, out)|))
  {
    hide At, ParseBody, BlockLegal, BodyBits, ExpandBlock;
    assert kind <= 2 by { BodyKinds(bits, pos + 3, kind, out, expected); }
    if kind == 0 {
      b := StoredBodySound(bits, pos, out, expected);
    } else if kind == 1 {
      b := FixedSound(bits, pos, out, expected);
    } else {
      b := DynamicSound(bits, pos, out, expected);
    }
  }

  lemma BodyKinds(bits: seq<bool>, pos: nat, kind: nat, out: seq<byte>, expected: nat)
    requires ParseBody(kind, bits, pos, out, expected).Some?
    ensures kind <= 2
  {
    hide ParseStored, ParseElements, ParseHeader;
  }

  lemma StoredBodySound(bits: seq<bool>, pos: nat, out: seq<byte>, expected: nat) returns (b: Block)
    requires ParseBody(0, bits, pos + 3, out, expected).Some?
    ensures BlockLegal(b, pos, out) && At(bits, pos + 3, BodyBits(b, pos, out)) && b.Stored?
    ensures ParseBody(0, bits, pos + 3, out, expected)
      == Some(Output(ExpandBlock(b, pos, out), pos + 3 + |BodyBits(b, pos, out)|))
  {
    hide At, ParseStored, ParseElements, ParseHeader, Digits, BytesBits;
    StoredFits(bits, pos + 3, out, expected);
    StoredSound(bits, pos + 3, out, expected);
    b := Stored(bits[pos + 3..AlignUp(pos + 3)], ParseStored(bits, pos + 3, out, expected).value.out[|out|..]);
  }

  lemma FixedSound(bits: seq<bool>, pos: nat, out: seq<byte>, expected: nat) returns (b: Block)
    requires ParseBody(1, bits, pos + 3, out, expected).Some?
    ensures BlockLegal(b, pos, out) && At(bits, pos + 3, BodyBits(b, pos, out)) && b.Fixed?
    ensures ParseBody(1, bits, pos + 3, out, expected)
      == Some(Output(ExpandBlock(b, pos, out), pos + 3 + |BodyBits(b, pos, out)|))
  {
    hide Accepted, At, ParseStored, ParseElements, ParseHeader, ElementsLegal, ElementsBits, ExpandElements, FIXED_LITERALS,
      FIXED_DISTANCES;
    FixedAccepted();
    var es := ElementsSound(FIXED_LITERALS, FIXED_DISTANCES, bits, pos + 3, out, expected);
    b := Fixed(es);
  }

  lemma DynamicSound(bits: seq<bool>, pos: nat, out: seq<byte>, expected: nat) returns (b: Block)
    requires ParseBody(2, bits, pos + 3, out, expected).Some?
    ensures BlockLegal(b, pos, out) && At(bits, pos + 3, BodyBits(b, pos, out)) && b.Dynamic?
    ensures ParseBody(2, bits, pos + 3, out, expected)
      == Some(Output(ExpandBlock(b, pos, out), pos + 3 + |BodyBits(b, pos, out)|))
  {
    hide Accepted, At, ParseElements, ParseHeader, ElementsLegal, ElementsBits, HeaderBits, ExpandElements, HeaderLegal;
    var h := HeaderSound(bits, pos + 3);
    var Tables(lit, dist, next) := ParseHeader(bits, pos + 3).value;
    var es := ElementsSound(lit, dist, bits, next, out, expected);
    b := Dynamic(h, es);
    AtConcat(bits, pos + 3, HeaderBits(h), ElementsBits(es, lit, dist, out));
  }

  lemma BlockAt(bits: seq<bool>, pos: nat, b: Block, last: bool, out: seq<byte>)
    requires BlockLegal(b, pos, out)
    ensures At(bits, pos, BlockBits(b, last, pos, out)) <==>
      && Field(bits, pos, 1) == Some(Bit(last)) && Field(bits, pos + 1, 2) == Some(BlockType(b))
      && At(bits, pos + 3, BodyBits(b, pos, out))
    ensures |BlockBits(b, last, pos, out)| == 3 + |BodyBits(b, pos, out)|
  {
    hide BlockLegal, BodyBits, At, Field, Digits;
    var body := BodyBits(b, pos, out);
    AtConcat(bits, pos, Digits(Bit(last), 1), Digits(BlockType(b), 2) + body);
    AtConcat(bits, pos + 1, Digits(BlockType(b), 2), body);
    assert Pow2(1) == 2 && Pow2(2) == 4;
    FieldAt(bits, pos, 1, Bit(last));
    FieldAt(bits, pos + 1, 2, BlockType(b));
  }

  lemma BlockComplete(bits: seq<bool>, pos: nat, b: Block, last: bool, out: seq<byte>, expected: nat)
    requires BlockLegal(b, pos, out) && At(bits, pos, BlockBits(b, last, pos, out))
    requires |ExpandBlock(b, pos, out)| <= expected
    ensures ParseBlock(bits, pos, out, expected)
      == Some(BlockEnd(last, ExpandBlock(b, pos, out), pos + |BlockBits(b, last, pos, out)|))
  {
    hide BlockLegal, BodyBits, BlockBits, At, Field, ParseBody, ExpandBlock, BlockType;
    BlockAt(bits, pos, b, last, out);
    BodyComplete(bits, pos, b, out, expected);
  }

  lemma BlockSound(bits: seq<bool>, pos: nat, out: seq<byte>, expected: nat) returns (b: Block)
    requires ParseBlock(bits, pos, out, expected).Some?
    ensures BlockLegal(b, pos, out)
    ensures var last := ParseBlock(bits, pos, out, expected).value.last;
      && At(bits, pos, BlockBits(b, last, pos, out))
      && ParseBlock(bits, pos, out, expected)
        == Some(BlockEnd(last, ExpandBlock(b, pos, out), pos + |BlockBits(b, last, pos, out)|))
  {
    hide BlockLegal, BodyBits, BlockBits, At, Field, ParseBody, ExpandBlock, BlockType;
    var last := Field(bits, pos, 1).value;
    assert last < 2 by {
      FieldAt(bits, pos, 1, last);
      assert Pow2(1) == 2;
    }
    var kind := Field(bits, pos + 1, 2).value;
    b := BodySound(bits, pos, kind, out, expected);
    BlockAt(bits, pos, b, last != 0, out);
  }

  lemma {:induction false} StreamComplete(bits: seq<bool>, pos: nat, bs: seq<Block>, out: seq<byte>, expected: nat)
    requires StreamLegal(bs, pos, out) && At(bits, pos, StreamBits(bs, pos, out))
    requires |ExpandStream(bs, pos, out)| <= expected
    ensures ParseStream(bits, pos, out, expected)
      == Some(Output(ExpandStream(bs, pos, out), pos + |StreamBits(bs, pos, out)|))
    decreases |bs|
  {
    hide BlockLegal, BlockBits, At, ParseBlock, ExpandBlock;
    if |bs| == 1 {
      BlockComplete(bits, pos, bs[0], true, out, expected);
    } else {
      var w, rest := BlockBits(bs[0], false, pos, out), ExpandBlock(bs[0], pos, out);
      AtConcat(bits, pos, w, StreamBits(bs[1..], pos + |w|, rest));
      BlockComplete(bits, pos, bs[0], false, out, expected);
      StreamComplete(bits, pos + |w|, bs[1..], rest, expected);
    }
  }

  lemma {:induction false} StreamSound(bits: seq<bool>, pos: nat, out: seq<byte>, expected: nat)
    returns (bs: seq<Block>)
    requires ParseStream(bits, pos, out, expected).Some?
    ensures StreamLegal(bs, pos, out) && At(bits, pos, StreamBits(bs, pos, out))
    ensures ParseStream(bits, pos, out, expected)
      == Some(Output(ExpandStream(bs, pos, out), pos + |StreamBits(bs, pos, out)|))
    decreases |bits| - pos
  {
    hide BlockLegal, BlockBits, At, ParseBlock, ExpandBlock;
    var b := BlockSound(bits, pos, out, expected);
    var end := ParseBlock(bits, pos, out, expected).value;
    if end.last {
      bs := [b];
    } else {
      var tail := StreamSound(bits, end.next, end.out, expected);
      bs := [b] + tail;
      assert bs[0] == b && bs[1..] == tail;
      AtConcat(bits, pos, BlockBits(b, false, pos, out), StreamBits(tail, end.next, end.out));
    }
  }

  // ---- the main result -----------------------------------------------------------------------

  /** `input` is the encoding of `bs`, filled up to a whole byte in any way. */
  ghost predicate Encodes(input: seq<byte>, bs: seq<Block>) {
    && StreamLegal(bs, 0, []) && At(BitsOf(input), 0, StreamBits(bs, 0, []))
    && |input| == (|StreamBits(bs, 0, [])| + 7) / 8
  }

  /** Decoding succeeds on exactly the encodings, and recovers what was encoded. */
  lemma InflateExact(input: seq<byte>, expected: nat, out: seq<byte>)
    ensures Inflate(input, expected) == Some(out) <==>
      |out| == expected && exists bs :: Encodes(input, bs) && ExpandStream(bs, 0, []) == out
  {
    hide StreamLegal, StreamBits, ExpandStream, ParseStream, BitsOf, At;
    var bits := BitsOf(input);
    if Inflate(input, expected) == Some(out) {
      var bs := StreamSound(bits, 0, [], expected);
      assert Encodes(input, bs) && ExpandStream(bs, 0, []) == out;
    }
    if |out| == expected && exists bs :: Encodes(input, bs) && ExpandStream(bs, 0, []) == out {
      var bs :| Encodes(input, bs) && ExpandStream(bs, 0, []) == out;
      StreamComplete(bits, 0, bs, [], expected);
    }
  }

  /** The reference encoder. */
  ghost function Deflated(bs: seq<Block>): seq<byte>
    requires StreamLegal(bs, 0, [])
  {
    Pack(StreamBits(bs, 0, []))
  }

  /** Round trip: whatever legal blocks are encoded, the decoder returns their expansion. */
  lemma DeflateRoundTrip(bs: seq<Block>)
    requires StreamLegal(bs, 0, [])
    ensures Inflate(Deflated(bs), |ExpandStream(bs, 0, [])|) == Some(ExpandStream(bs, 0, []))
  {
    hide StreamLegal, StreamBits, ExpandStream, ParseStream, BitsOf, At, Pack;
    PackRoundTrip(StreamBits(bs, 0, []));
    assert Encodes(Deflated(bs), bs);
    InflateExact(Deflated(bs), |ExpandStream(bs, 0, [])|, ExpandStream(bs, 0, []));
  }
}
