/**
 The decoder. The ghost functions give its result as a function of the bit string and a position; the
 methods below them work as the source does, on a reader that advances and an output that grows.
 */
module Inflater {
  import opened Bytes
  import opened BitStream
  import opened Huffman
  import opened Deflate

  // ---- what the decoder computes -------------------------------------------------------------

  /** One decoded item of a compressed block; no element means the end of the block. */
  datatype Item = Item(element: Option<Element>, next: nat)

  ghost function ParseItem(lit: seq<nat>, dist: seq<nat>, bits: seq<bool>, pos: nat): (r: Option<Item>)
    ensures r.Some? ==> pos < r.value.next <= |bits|
    ensures r.Some? && r.value.element.Some? ==> WellFormed(r.value.element.value)
  {
    hide Accepted, CodeBits, Value, Digits, Pow2;
    match Symbol(lit, bits, pos)
    case None => None
    case Some(s) =>
      var p := pos + lit[s];
      if s < 256 then Some(Item(Some(Literal(s)), p))
      else if s == END_OF_BLOCK then Some(Item(None, p))
      else if s > 285 then None
      else
        var n := LENGTH_EXTRA[s - 257];
        match Field(bits, p, n)
        case None => None
        case Some(le) =>
          FieldAt(bits, p, n, le);
          match Symbol(dist, bits, p + n)
          case None => None
          case Some(ds) =>
            if ds >= 30 then None
            else
              var q := p + n + dist[ds];
              var m := DISTANCE_EXTRA[ds];
              match Field(bits, q, m)
              case None => None
              case Some(de) =>
                FieldAt(bits, q, m, de);
                Some(Item(Some(Copy(s, le, ds, de)), q + m))
  }

  /** The element may be applied without reading before the output or growing it past `expected`. */
  predicate Room(out: seq<byte>, e: Element, expected: nat) {
    Applicable(out, e) && |Apply(out, e)| <= expected
  }

  datatype Output = Output(out: seq<byte>, next: nat)

  ghost function ParseElements(lit: seq<nat>, dist: seq<nat>, bits: seq<bool>, pos: nat,
                               out: seq<byte>, expected: nat): (r: Option<Output>)
    ensures r.Some? ==> pos < r.value.next <= |bits| && out <= r.value.out
    decreases |bits| - pos
  {
    match ParseItem(lit, dist, bits, pos)
    case None => None
    case Some(Item(None, next)) => Some(Output(out, next))
    case Some(Item(Some(e), next)) =>
      if Room(out, e, expected) then ParseElements(lit, dist, bits, next, Apply(out, e), expected) else None
  }

  datatype ParsedOp = ParsedOp(op: LengthOp, next: nat)

  ghost function ParseOp(codes: seq<nat>, bits: seq<bool>, pos: nat): (r: Option<ParsedOp>)
    ensures r.Some? ==> pos < r.value.next <= |bits|
  {
    match Symbol(codes, bits, pos)
    case None => None
    case Some(s) =>
      var p := pos + codes[s];
      if s <= 15 then Some(ParsedOp(Plain(s), p))
      else if s == 16 then
        match Field(bits, p, 2) case None => None case Some(x) => Some(ParsedOp(RepeatPrevious(x), p + 2))
      else if s == 17 then
        match Field(bits, p, 3) case None => None case Some(x) => Some(ParsedOp(ShortZeros(x), p + 3))
      else if s == 18 then
        match Field(bits, p, 7) case None => None case Some(x) => Some(ParsedOp(LongZeros(x), p + 7))
      else None
  }

  datatype Lengths = Lengths(lengths: seq<nat>, next: nat)

  /** One round of the loop that spells out the code lengths. */
  ghost function StepOps(codes: seq<nat>, bits: seq<bool>, pos: nat, acc: seq<nat>, need: nat): (r: Option<Lengths>)
    requires |acc| < need
    ensures r.Some? ==> |acc| < |r.value.lengths| <= need && pos < r.value.next <= |bits|
  {
    match ParseOp(codes, bits, pos)
    case None => None
    case Some(ParsedOp(op, next)) =>
      if (op.RepeatPrevious? && acc == []) || |ApplyOp(acc, op)| > need then None
      else Some(Lengths(ApplyOp(acc, op), next))
  }

  ghost function ParseOps(codes: seq<nat>, bits: seq<bool>, pos: nat, acc: seq<nat>, need: nat): (r: Option<Lengths>)
    requires |acc| <= need
    ensures r.Some? ==> |r.value.lengths| == need && pos <= r.value.next
    ensures r.Some? && pos <= |bits| ==> r.value.next <= |bits|
    decreases need - |acc|
  {
    if |acc| == need then Some(Lengths(acc, pos))
    else
      match StepOps(codes, bits, pos, acc, need)
      case None => None
      case Some(Lengths(longer, next)) => ParseOps(codes, bits, next, longer, need)
  }

  ghost function ParseSent(bits: seq<bool>, pos: nat, n: nat): (r: Option<seq<nat>>)
    ensures r.Some? ==> |r.value| == n && (n > 0 ==> pos + 3 * n <= |bits|)
  {
    if n == 0 then Some([])
    else
      match ParseSent(bits, pos, n - 1)
      case None => None
      case Some(front) =>
        match Field(bits, pos + 3 * (n - 1), 3)
        case None => None
        case Some(x) => Some(front + [x])
  }

  datatype Tables = Tables(lit: seq<nat>, dist: seq<nat>, next: nat)

  /** The code lengths behind the three counts of a dynamic header. */
  ghost function ParseTables(bits: seq<bool>, pos: nat, hlit: nat, hdist: nat, n: nat): (r: Option<Tables>)
    ensures r.Some? ==> Accepted(r.value.lit) && Accepted(r.value.dist) && pos <= r.value.next
    ensures r.Some? && pos <= |bits| ==> r.value.next <= |bits|
  {
    hide Accepted;
    match ParseSent(bits, pos, n)
    case None => None
    case Some(sent) =>
      if n > 19 || !Accepted(CodeLengthCode(sent)) then None
      else
        match ParseOps(CodeLengthCode(sent), bits, pos + 3 * n, [], hlit + 257 + hdist + 1)
        case None => None
        case Some(Lengths(all, next)) =>
          var lit, dist := all[..hlit + 257], all[hlit + 257..];
          if all[END_OF_BLOCK] == 0 || !Accepted(lit) || !Accepted(dist) then None
          else Some(Tables(lit, dist, next))
  }

  ghost function ParseHeader(bits: seq<bool>, pos: nat): (r: Option<Tables>)
    ensures r.Some? ==> Accepted(r.value.lit) && Accepted(r.value.dist) && pos < r.value.next <= |bits|
  {
    hide Accepted, ParseTables, Value;
    match Field(bits, pos, 5)
    case None => None
    case Some(hlit) =>
      match Field(bits, pos + 5, 5)
      case None => None
      case Some(hdist) =>
        match Field(bits, pos + 10, 4)
        case None => None
        case Some(hclen) => ParseTables(bits, pos + 14, hlit, hdist, hclen + 4)
  }

  /** The `n` whole bytes at `pos`. */
  ghost function ParseBytes(bits: seq<bool>, pos: nat, n: nat): (r: Option<seq<byte>>)
    ensures r.Some? ==> |r.value| == n
  {
    if pos + 8 * n > |bits| then None
    else Some(seq(n, i requires 0 <= i < n => ByteAt(bits, pos + 8 * i)))
  }

  function ByteAt(bits: seq<bool>, pos: nat): byte
    requires pos + 8 <= |bits|
  {
    ValueBound(bits[pos..pos + 8]);
    Pow2Mono(8, 8);
    Value(bits[pos..pos + 8])
  }

  ghost function ParseStored(bits: seq<bool>, pos: nat, out: seq<byte>, expected: nat): (r: Option<Output>)
    ensures r.Some? ==> pos < r.value.next <= |bits| && out <= r.value.out
  {
    var p := AlignUp(pos);
    match Field(bits, p, 16)
    case None => None
    case Some(length) =>
      match Field(bits, p + 16, 16)
      case None => None
      case Some(complement) =>
        if length + complement != 0xffff || |out| + length > expected then None
        else
          match ParseBytes(bits, p + 32, length)
          case None => None
          case Some(data) => Some(Output(out + data, p + 32 + 8 * length))
  }

  datatype BlockEnd = BlockEnd(last: bool, out: seq<byte>, next: nat)

  ghost function ParseBody(kind: nat, bits: seq<bool>, pos: nat, out: seq<byte>, expected: nat): (r: Option<Output>)
    ensures r.Some? ==> pos < r.value.next <= |bits| && out <= r.value.out
  {
    if kind == 0 then ParseStored(bits, pos, out, expected)
    else if kind == 1 then ParseElements(FIXED_LITERALS, FIXED_DISTANCES, bits, pos, out, expected)
    else if kind == 2 then
      match ParseHeader(bits, pos)
      case None => None
      case Some(Tables(lit, dist, next)) => ParseElements(lit, dist, bits, next, out, expected)
    else None
  }

  ghost function ParseBlock(bits: seq<bool>, pos: nat, out: seq<byte>, expected: nat): (r: Option<BlockEnd>)
    ensures r.Some? ==> pos < r.value.next <= |bits| && out <= r.value.out
  {
    hide Value, ParseBody;
    match Field(bits, pos, 1)
    case None => None
    case Some(last) =>
      match Field(bits, pos + 1, 2)
      case None => None
      case Some(kind) =>
        match ParseBody(kind, bits, pos + 3, out, expected)
        case None => None
        case Some(Output(out', next)) => Some(BlockEnd(last != 0, out', next))
  }

  ghost function ParseStream(bits: seq<bool>, pos: nat, out: seq<byte>, expected: nat): (r: Option<Output>)
    ensures r.Some? ==> r.value.next <= |bits|
    decreases |bits| - pos
  {
    hide ParseBlock;
    match ParseBlock(bits, pos, out, expected)
    case None => None
    case Some(BlockEnd(last, out', next)) =>
      if last then Some(Output(out', next)) else ParseStream(bits, next, out', expected)
  }

  /** The bytes `input` inflates to, if it is a stream for exactly `expected` bytes. */
  ghost function Inflate(input: seq<byte>, expected: nat): Option<seq<byte>> {
    match ParseStream(BitsOf(input), 0, [], expected)
    case None => None
    case Some(Output(out, next)) =>
      if |out| == expected && (next + 7) / 8 == |input| then Some(out) else None
  }

  // ---- the decoder ---------------------------------------------------------------------------

  /** Reads one item of a compressed block. */
  method ReadItem(reader: BitReader, literals: Table, distances: Table, ghost lit: seq<nat>, ghost dist: seq<nat>)
    returns (r: Option<Option<Element>>)
    requires reader.Valid() && literals.Represents(lit) && distances.Represents(dist)
    modifies reader
    ensures reader.Valid()
    ensures r.None? <==> ParseItem(lit, dist, BitsOf(reader.input), old(reader.bit)).None?
    ensures r.Some? ==>
      ParseItem(lit, dist, BitsOf(reader.input), old(reader.bit)) == Some(Item(r.value, reader.bit))
  {
    hide BitsOf, CodeBits, Value, Digits, Pow2, Accepted, Table.Covers, Symbol, Field;
    var symbol := literals.Decode(reader, lit);
    if symbol.None? { return None; }
    if symbol.value < 256 { return Some(Some(Literal(symbol.value))); }
    if symbol.value == END_OF_BLOCK { return Some(None); }
    if symbol.value < 257 || symbol.value > 285 { return None; }
    var lengthBits := reader.Read(LENGTH_EXTRA[symbol.value - 257]);
    if lengthBits.None? { return None; }
    var distanceSymbol := distances.Decode(reader, dist);
    if distanceSymbol.None? || distanceSymbol.value >= |DISTANCE_BASE| { return None; }
    var distanceBits := reader.Read(DISTANCE_EXTRA[distanceSymbol.value]);
    if distanceBits.None? { return None; }
    return Some(Some(Copy(symbol.value, lengthBits.value, distanceSymbol.value, distanceBits.value)));
  }

  /** The byte `distance` before the end continues the periodic extension. */
  lemma RepetitionNext(start: seq<byte>, index: nat, distance: nat)
    requires 0 < distance <= |start|
    ensures Repetition(start, index + 1, distance) ==
      Repetition(start, index, distance) + [(start + Repetition(start, index, distance))[|start| + index - distance]]
  {
    var shorter := Repetition(start, index, distance);
    var x := (start + shorter)[|start| + index - distance];
    assert x == start[|start| - distance + Phase(index, distance)] by {
      if index >= distance { assert x == shorter[index - distance]; }
    }
    assert Repetition(start, index + 1, distance)[..index] == shorter;
  }

  /** Appends `length` bytes, each one the byte that stands `distance` before it. */
  method CopyBack(start: seq<byte>, length: nat, distance: nat) returns (out: seq<byte>)
    requires 0 < distance <= |start|
    ensures out == start + Repetition(start, length, distance)
  {
    out := start;
    assert start + Repetition(start, 0, distance) == start;
    hide Repetition;
    for index := 0 to length
      invariant out == start + Repetition(start, index, distance)
    {
      RepetitionNext(start, index, distance);
      out := out + [out[|out| - distance]];
    }
  }

  /** The checks of the decoding loop, and the growth of the output they allow. */
  method Emit(start: seq<byte>, e: Element, expected: nat) returns (r: Option<seq<byte>>)
    requires WellFormed(e) && |start| <= expected
    ensures r == if Room(start, e, expected) then Some(Apply(start, e)) else None
  {
    hide Repetition, Pow2;
    match e {
      case Literal(v) =>
        if |start| >= expected { return None; }
        return Some(start + [v]);
      case Copy(ls, le, ds, de) =>
        var length := LENGTH_BASE[ls - 257] + le;
        var distance := DISTANCE_BASE[ds] + de;
        if distance == 0 || distance > |start| || |start| + length > expected { return None; }
        var out := CopyBack(start, length, distance);
        return Some(out);
    }
  }

  /** Decodes the elements of one block onto the output. */
  method ReadElements(reader: BitReader, literals: Table, distances: Table, ghost lit: seq<nat>,
                      ghost dist: seq<nat>, start: seq<byte>, expected: nat)
    returns (ok: bool, out: seq<byte>)
    requires reader.Valid() && literals.Represents(lit) && distances.Represents(dist) && |start| <= expected
    modifies reader
    ensures reader.Valid() && |out| <= expected
    ensures ok <==> ParseElements(lit, dist, BitsOf(reader.input), old(reader.bit), start, expected).Some?
    ensures ok ==>
      ParseElements(lit, dist, BitsOf(reader.input), old(reader.bit), start, expected) == Some(Output(out, reader.bit))
  {
    hide Table.Covers, Accepted, ParseItem, BitsOf, Apply, Applicable, WellFormed;
    ghost var bits := BitsOf(reader.input);
    out := start;
    while true
      invariant reader.Valid() && |out| <= expected
      invariant ParseElements(lit, dist, bits, old(reader.bit), start, expected)
             == ParseElements(lit, dist, bits, reader.bit, out, expected)
      decreases |bits| - reader.bit
    {
      var item := ReadItem(reader, literals, distances, lit, dist);
      if item.None? { return false, out; }
      if item.value.None? { return true, out; }
      var longer := Emit(out, item.value.value, expected);
      if longer.None? { return false, out; }
      out := longer.value;
    }
  }

  /** Reads one operation and appends the code lengths it stands for. */
  method ReadOp(reader: BitReader, table: Table, ghost codes: seq<nat>, lengths: seq<nat>, need: nat)
    returns (r: Option<seq<nat>>)
    requires reader.Valid() && table.Represents(codes) && |codes| == 19 && |lengths| < need
    modifies reader
    ensures reader.Valid()
    ensures r.None? <==> StepOps(codes, BitsOf(reader.input), old(reader.bit), lengths, need).None?
    ensures r.Some? ==>
      StepOps(codes, BitsOf(reader.input), old(reader.bit), lengths, need) == Some(Lengths(r.value, reader.bit))
  {
    hide Table.Covers, Accepted, BitsOf, Symbol, Field;
    var symbol := table.Decode(reader, codes);
    if symbol.None? { return None; }
    if symbol.value <= 15 { return Some(lengths + [symbol.value]); }
    var extraBits, base, repeated := 0, 0, 0;
    if symbol.value == 16 {
      if lengths == [] { return None; }
      extraBits, base, repeated := 2, 3, lengths[|lengths| - 1];
    } else if symbol.value == 17 {
      extraBits, base := 3, 3;
    } else if symbol.value == 18 {
      extraBits, base := 7, 11;
    } else {
      return None;
    }
    var extra := reader.Read(extraBits);
    if extra.None? || |lengths| + base + extra.value > need { return None; }
    return Some(lengths + Fill(base + extra.value, repeated));
  }

  /** Reads the repeat operations that spell out all code lengths. */
  method ReadLengths(reader: BitReader, table: Table, ghost codes: seq<nat>, need: nat)
    returns (r: Option<seq<nat>>)
    requires reader.Valid() && table.Represents(codes) && |codes| == 19
    modifies reader
    ensures reader.Valid()
    ensures r.None? <==> ParseOps(codes, BitsOf(reader.input), old(reader.bit), [], need).None?
    ensures r.Some? ==>
      ParseOps(codes, BitsOf(reader.input), old(reader.bit), [], need) == Some(Lengths(r.value, reader.bit))
  {
    hide Table.Covers, Accepted, BitsOf, StepOps;
    ghost var bits := BitsOf(reader.input);
    var lengths: seq<nat> := [];
    while |lengths| < need
      invariant reader.Valid() && |lengths| <= need
      invariant ParseOps(codes, bits, old(reader.bit), [], need) == ParseOps(codes, bits, reader.bit, lengths, need)
      decreases need - |lengths|
    {
      var longer := ReadOp(reader, table, codes, lengths, need);
      if longer.None? { return None; }
      lengths := longer.value;
    }
    return Some(lengths);
  }

  /** Reads the code length code lengths, which arrive in the order of ORDER. */
  method ReadSent(reader: BitReader, count: nat) returns (r: Option<seq<nat>>, ghost sent: seq<nat>)
    requires reader.Valid() && count <= 19
    modifies reader
    ensures reader.Valid()
    ensures r.None? <==> ParseSent(BitsOf(reader.input), old(reader.bit), count).None?
    ensures r.Some? ==>
      && reader.bit == old(reader.bit) + 3 * count && |sent| == count && r.value == CodeLengthCode(sent)
      && ParseSent(BitsOf(reader.input), old(reader.bit), count) == Some(sent)
  {
    ghost var bits, pos := BitsOf(reader.input), reader.bit;
    sent := [];
    var codeLengths: seq<nat> := seq(19, _ => 0);
    hide BitsOf, Value, Field, ParseSent, CodeLengthCode, ORDER;
    OrderFits();
    NoneSent(bits, pos, codeLengths);
    hide SentSoFar;
    for index := 0 to count
      invariant reader.Valid() && reader.bit == pos + 3 * index
      invariant SentSoFar(bits, pos, index, sent, codeLengths)
    {
      var value := reader.Read(3);
      if value.None? {
        SentFails(bits, pos, index, count);
        return None, sent;
      }
      SentNext(bits, pos, index, sent, codeLengths, value.value);
      codeLengths := codeLengths[ORDER[index] := value.value];
      sent := sent + [value.value];
    }
    assert |sent| == count && codeLengths == CodeLengthCode(sent) && ParseSent(bits, pos, count) == Some(sent) by {
      SentMeans(bits, pos, count, sent, codeLengths);
    }
    return Some(codeLengths), sent;
  }

  lemma NoneSent(bits: seq<bool>, pos: nat, codeLengths: seq<nat>)
    requires |codeLengths| == 19 && forall i | 0 <= i < 19 :: codeLengths[i] == 0
    ensures SentSoFar(bits, pos, 0, [], codeLengths)
  {
  }

  lemma OrderFits()
    ensures |ORDER| == 19 && forall i | 0 <= i < 19 :: ORDER[i] < 19
  {
  }

  /** The first `n` lengths have been read and put where they belong. */
  ghost predicate SentSoFar(bits: seq<bool>, pos: nat, n: nat, sent: seq<nat>, codeLengths: seq<nat>) {
    && |sent| == n <= 19 && |codeLengths| == 19 && codeLengths == CodeLengthCode(sent)
    && ParseSent(bits, pos, n) == Some(sent)
  }

  lemma SentMeans(bits: seq<bool>, pos: nat, n: nat, sent: seq<nat>, codeLengths: seq<nat>)
    requires SentSoFar(bits, pos, n, sent, codeLengths)
    ensures |sent| == n <= 19 && |codeLengths| == 19 && codeLengths == CodeLengthCode(sent)
    ensures ParseSent(bits, pos, n) == Some(sent)
  {
    hide ParseSent, CodeLengthCode;
  }

  lemma SentNext(bits: seq<bool>, pos: nat, n: nat, sent: seq<nat>, codeLengths: seq<nat>, x: nat)
    requires n < 19 && |ORDER| == 19 && ORDER[n] < 19 && SentSoFar(bits, pos, n, sent, codeLengths)
    requires Field(bits, pos + 3 * n, 3) == Some(x)
    ensures |codeLengths| == 19 && SentSoFar(bits, pos, n + 1, sent + [x], codeLengths[ORDER[n] := x])
  {
    hide Field, ORDER;
    assert (sent + [x])[..n] == sent;
  }

  lemma {:induction false} SentFails(bits: seq<bool>, pos: nat, index: nat, n: nat)
    requires index < n && Field(bits, pos + 3 * index, 3).None?
    ensures ParseSent(bits, pos, n).None?
  {
    if index < n - 1 { SentFails(bits, pos, index, n - 1); }
  }

  /** The code lengths of a dynamic block, behind its three counts. */
  method ReadTables(reader: BitReader, hlit: nat, hdist: nat, count: nat, literals: Table, distances: Table)
    returns (ok: bool, ghost tables: Tables)
    requires reader.Valid() && hlit < 32 && hdist < 32 && count <= 19 && literals != distances
    modifies reader, literals, distances
    ensures reader.Valid()
    ensures ok <==> ParseTables(BitsOf(reader.input), old(reader.bit), hlit, hdist, count).Some?
    ensures ok ==>
      && ParseTables(BitsOf(reader.input), old(reader.bit), hlit, hdist, count) == Some(tables)
      && tables.next == reader.bit && literals.Represents(tables.lit) && distances.Represents(tables.dist)
  {
    hide BitsOf, Symbol, Field, ParseOps, Accepted, Table.Covers, CodeLengthCode;
    tables := Tables([], [], 0);
    var codeLengths, sent := ReadSent(reader, count);
    if codeLengths.None? { return false, tables; }
    var codeTable := new Table();
    ok := codeTable.Build(codeLengths.value);
    if !ok { return false, tables; }
    var lengths := ReadLengths(reader, codeTable, codeLengths.value, hlit + 257 + hdist + 1);
    if lengths.None? { return false, tables; }
    if lengths.value[256] == 0 { return false, tables; }
    var lit, dist := lengths.value[..hlit + 257], lengths.value[hlit + 257..];
    ok := literals.Build(lit);
    if ok { ok := distances.Build(dist); }
    tables := Tables(lit, dist, reader.bit);
  }

  method DynamicTables(reader: BitReader, literals: Table, distances: Table) returns (ok: bool, ghost tables: Tables)
    requires reader.Valid() && literals != distances
    modifies reader, literals, distances
    ensures reader.Valid()
    ensures ok <==> ParseHeader(BitsOf(reader.input), old(reader.bit)).Some?
    ensures ok ==>
      && ParseHeader(BitsOf(reader.input), old(reader.bit)) == Some(tables)
      && tables.next == reader.bit && literals.Represents(tables.lit) && distances.Represents(tables.dist)
  {
    hide BitsOf, ParseTables, Accepted, Table.Covers, Value;
    tables := Tables([], [], 0);
    ghost var bits, pos := BitsOf(reader.input), reader.bit;
    var hlit := reader.Read(5);
    var hdist := reader.Read(5);
    var hclen := reader.Read(4);
    if hlit.None? || hdist.None? || hclen.None? {
      return false, tables;
    }
    FieldBound(bits, pos, 5);
    FieldBound(bits, pos + 5, 5);
    FieldBound(bits, pos + 10, 4);
    ok, tables := ReadTables(reader, hlit.value, hdist.value, hclen.value + 4, literals, distances);
  }

  lemma FieldBound(bits: seq<bool>, pos: nat, n: nat)
    requires n <= 5
    ensures Field(bits, pos, n).Some? ==> Field(bits, pos, n).value < Pow2(n)
    ensures n == 5 ==> Pow2(n) == 32
    ensures n == 4 ==> Pow2(n) == 16
  {
    if pos + n <= |bits| { ValueBound(bits[pos..pos + n]); }
    assert Pow2(4) == 16 && Pow2(5) == 2 * Pow2(4);
  }

  method FixedTables(literals: Table, distances: Table) returns (ok: bool)
    requires literals != distances
    modifies literals, distances
    ensures ok && literals.Represents(FIXED_LITERALS) && distances.Represents(FIXED_DISTANCES)
  {
    hide Accepted, Table.Covers;
    FixedAccepted();
    ok := literals.Build(FIXED_LITERALS);
    if ok { ok := distances.Build(FIXED_DISTANCES); }
  }

  /** Copies one stored block onto the output. */
  method ReadStored(reader: BitReader, start: seq<byte>, expected: nat) returns (ok: bool, out: seq<byte>)
    requires reader.Valid() && |start| <= expected
    modifies reader
    ensures reader.Valid() && |out| <= expected
    ensures ok <==> ParseStored(BitsOf(reader.input), old(reader.bit), start, expected).Some?
    ensures ok ==>
      ParseStored(BitsOf(reader.input), old(reader.bit), start, expected) == Some(Output(out, reader.bit))
  {
    hide BitsOf, Value;
    ghost var bits := BitsOf(reader.input);
    out := start;
    reader.Align();
    var length := reader.Read(16);
    var complement := reader.Read(16);
    if length.None? || complement.None? { return false, out; }
    // two 16-bit fields are each other's complement exactly when they add up to 0xffff
    if length.value + complement.value != 0xffff || |out| + length.value > expected { return false, out; }
    ghost var from := reader.bit;
    for index := 0 to length.value
      invariant reader.Valid() && reader.bit == from + 8 * index && from + 8 * index <= |bits|
      invariant out == start + ParseBytes(bits, from, index).value
    {
      var value := reader.Read(8);
      if value.None? { return false, out; }
      assert value.value == ByteAt(bits, from + 8 * index);
      out := out + [value.value];
    }
    return true, out;
  }

  /** Decodes the body of one block. */
  method ReadBody(reader: BitReader, kind: nat, start: seq<byte>, expected: nat) returns (ok: bool, out: seq<byte>)
    requires reader.Valid() && |start| <= expected
    modifies reader
    ensures reader.Valid() && |out| <= expected
    ensures ok <==> ParseBody(kind, BitsOf(reader.input), old(reader.bit), start, expected).Some?
    ensures ok ==>
      ParseBody(kind, BitsOf(reader.input), old(reader.bit), start, expected) == Some(Output(out, reader.bit))
  {
    hide BitsOf, ParseStored, ParseElements, ParseHeader, Accepted, Table.Covers;
    if kind == 0 {
      ok, out := ReadStored(reader, start, expected);
      return;
    }
    var literals := new Table();
    var distances := new Table();
    if kind == 1 {
      ok := FixedTables(literals, distances);
      ok, out := ReadElements(reader, literals, distances, FIXED_LITERALS, FIXED_DISTANCES, start, expected);
    } else if kind == 2 {
      ghost var tables;
      ok, tables := DynamicTables(reader, literals, distances);
      if !ok { return false, start; }
      ok, out := ReadElements(reader, literals, distances, tables.lit, tables.dist, start, expected);
    } else {
      return false, start;
    }
  }

  /** Decodes one block; on success says whether it was the last. */
  method ReadBlock(reader: BitReader, start: seq<byte>, expected: nat) returns (last: Option<bool>, out: seq<byte>)
    requires reader.Valid() && |start| <= expected
    modifies reader
    ensures reader.Valid() && |out| <= expected
    ensures last.None? <==> ParseBlock(BitsOf(reader.input), old(reader.bit), start, expected).None?
    ensures last.Some? ==>
      ParseBlock(BitsOf(reader.input), old(reader.bit), start, expected) == Some(BlockEnd(last.value, out, reader.bit))
  {
    hide BitsOf, ParseBody, Value;
    var final := reader.Read(1);
    var kind := reader.Read(2);
    if final.None? || kind.None? { return None, start; }
    var ok;
    ok, out := ReadBody(reader, kind.value, start, expected);
    last := if ok then Some(final.value != 0) else None;
  }

  /**
   Inflates `input`. Succeeds exactly when `input` is a DEFLATE stream for `expected` bytes, and never
   grows the output past `expected`, not even on failure.
   */
  method InflateRaw(input: seq<byte>, expected: nat) returns (ok: bool, output: seq<byte>)
    ensures |output| <= expected
    ensures ok <==> Inflate(input, expected).Some?
    ensures ok ==> Inflate(input, expected) == Some(output)
  {
    hide BitsOf, ParseBlock;
    var reader := new BitReader(input);
    ghost var bits := BitsOf(input);
    output := [];
    var finalBlock := false;
    while !finalBlock
      invariant reader.Valid() && reader.input == input && fresh(reader) && |output| <= expected
      invariant finalBlock ==> ParseStream(bits, 0, [], expected) == Some(Output(output, reader.bit))
      invariant !finalBlock ==>
        ParseStream(bits, 0, [], expected) == ParseStream(bits, reader.bit, output, expected)
      decreases !finalBlock, |bits| - reader.bit
    {
      var last;
      last, output := ReadBlock(reader, output, expected);
      if last.None? { return false, output; }
      finalBlock := last.value;
    }
    ok := |output| == expected && reader.ByteOffset() == |input|;
  }
}
