/** The exported form of an audit chain: writer, reader, and the proof that they are inverse to each other. */
module AuditCodec {
  import opened Bytes
  import opened AuditChain

  const MAGIC: seq<byte> := [0x41, 0x49, 0x53, 0x48, 0x41, 0x44, 0x30, 0x32]
  const MAXIMUM_SEGMENTS: nat := 1_000_000
  const MAXIMUM_RECORDS: nat := 4096

  // ---- the format ----------------------------------------------------------------------------

  function RecordWire(r: Record): (b: seq<byte>)
    ensures |b| == 124
  {
    Prefix(r) + Words(Fields(r.correlation))
  }

  function RecordsWire(rs: seq<Record>): (b: seq<byte>)
    ensures |b| == 124 * |rs|
  {
    if rs == [] then [] else RecordWire(rs[0]) + RecordsWire(rs[1..])
  }

  function SegmentHead(s: Segment): (b: seq<byte>)
    ensures |b| == 80
  {
    LittleEndian(s.sequence, 8) + s.previous + s.hash + LittleEndian(|s.records|, 8)
  }

  function SegmentWire(s: Segment): seq<byte> { SegmentHead(s) + RecordsWire(s.records) }

  function SegmentsWire(ss: seq<Segment>): seq<byte> {
    if ss == [] then [] else SegmentWire(ss[0]) + SegmentsWire(ss[1..])
  }

  function ChainHead(n: nat): (b: seq<byte>)
    ensures |b| == 16
  {
    MAGIC + LittleEndian(n, 8)
  }

  function Wire(ss: seq<Segment>): seq<byte> { ChainHead(|ss|) + SegmentsWire(ss) }

  /** The sizes the reader accepts. */
  predicate SegmentWithin(s: Segment) { |s.records| <= MAXIMUM_RECORDS }

  predicate Within(ss: seq<Segment>) {
    |ss| <= MAXIMUM_SEGMENTS && forall i | 0 <= i < |ss| :: SegmentWithin(ss[i])
  }

  // ---- the writer ----------------------------------------------------------------------------

  method SerializeRecord(r: Record) returns (b: seq<byte>)
    ensures b == RecordWire(r)
  {
    hide LittleEndian;
    var c := r.correlation;
    b := AppendScalar([], r.sequence, 8);
    b := AppendScalar(b, r.monotonicNs, 8);
    b := AppendScalar(b, r.reasonMask, 4);
    b := b + r.evidence;
    b := b + Words([c.flowId, c.objectId, c.fileId, c.volumeId, c.provenanceId, c.processId, c.parentProcessId,
                    c.policyVersion, c.modelVersion]);
  }

  lemma {:induction false} RecordsWireSnoc(rs: seq<Record>, r: Record)
    ensures RecordsWire(rs + [r]) == RecordsWire(rs) + RecordWire(r)
  {
    hide RecordWire;
    if rs == [] {
      assert ([] + [r])[1..] == [] && RecordsWire([]) == [];
    } else {
      RecordsWireSnoc(rs[1..], r);
      assert (rs + [r])[1..] == rs[1..] + [r];
    }
  }

  lemma {:induction false} SegmentsWireSnoc(ss: seq<Segment>, s: Segment)
    ensures SegmentsWire(ss + [s]) == SegmentsWire(ss) + SegmentWire(s)
  {
    if ss == [] {
      assert ([] + [s])[1..] == [] && SegmentsWire([]) == [];
    } else {
      SegmentsWireSnoc(ss[1..], s);
      assert (ss + [s])[1..] == ss[1..] + [s];
    }
  }

  method SerializeSegment(s: Segment) returns (b: seq<byte>)
    ensures b == SegmentWire(s)
  {
    hide RecordWire, LittleEndian;
    b := AppendScalar([], s.sequence, 8);
    b := b + s.previous;
    b := b + s.hash;
    b := AppendScalar(b, |s.records|, 8);
    for i := 0 to |s.records|
      invariant b == SegmentHead(s) + RecordsWire(s.records[..i])
    {
      var record := SerializeRecord(s.records[i]);
      RecordsWireSnoc(s.records[..i], s.records[i]);
      assert s.records[..i + 1] == s.records[..i] + [s.records[i]];
      b := b + record;
    }
    assert s.records[..|s.records|] == s.records;
  }

  method Serialize(chain: Chain) returns (b: seq<byte>)
    ensures b == Wire(chain.segments)
  {
    hide SegmentWire, LittleEndian;
    var ss := chain.segments;
    b := MAGIC;
    b := AppendScalar(b, |ss|, 8);
    for i := 0 to |ss|
      invariant b == ChainHead(|ss|) + SegmentsWire(ss[..i])
    {
      var segment := SerializeSegment(ss[i]);
      SegmentsWireSnoc(ss[..i], ss[i]);
      assert ss[..i + 1] == ss[..i] + [ss[i]];
      b := b + segment;
    }
    assert ss[..|ss|] == ss;
  }

  // ---- what the reader computes --------------------------------------------------------------

  function U32At(b: seq<byte>, at: nat): u32
    requires at + 4 <= |b|
  {
    LittleEndianBound(b[at..at + 4]);
    Pow256Values();
    FromLittleEndian(b[at..at + 4])
  }

  function RecordAt(b: seq<byte>, at: nat): Record
    requires at + 124 <= |b|
  {
    Record(U64At(b, at), U64At(b, at + 8), U32At(b, at + 16), b[at + 20..at + 52],
           Correlation(U64At(b, at + 52), U64At(b, at + 60), U64At(b, at + 68), U64At(b, at + 76), U64At(b, at + 84),
                       U64At(b, at + 92), U64At(b, at + 100), U64At(b, at + 108), U64At(b, at + 116)))
  }

  datatype Parsed<T> = Parsed(value: T, next: nat)

  function ParseRecords(b: seq<byte>, at: nat, n: nat): (r: Option<Parsed<seq<Record>>>)
    requires at <= |b|
    ensures r.Some? ==> r.value.next <= |b| && |r.value.value| == n
    decreases n
  {
    if n == 0 then Some(Parsed([], at))
    else if at + 124 > |b| then None
    else
      match ParseRecords(b, at + 124, n - 1)
      case None => None
      case Some(Parsed(rest, next)) => Some(Parsed([RecordAt(b, at)] + rest, next))
  }

  function ParseSegment(b: seq<byte>, at: nat): (r: Option<Parsed<Segment>>)
    requires at <= |b|
    ensures r.Some? ==> r.value.next <= |b| && SegmentWithin(r.value.value)
  {
    if at + 80 > |b| || U64At(b, at + 72) > MAXIMUM_RECORDS then None
    else
      match ParseRecords(b, at + 80, U64At(b, at + 72))
      case None => None
      case Some(Parsed(rs, next)) =>
        Some(Parsed(Segment(U64At(b, at), b[at + 8..at + 40], b[at + 40..at + 72], rs), next))
  }

  function ParseSegments(b: seq<byte>, at: nat, n: nat): (r: Option<Parsed<seq<Segment>>>)
    requires at <= |b|
    ensures r.Some? ==> r.value.next <= |b| && |r.value.value| == n
    decreases n
  {
    if n == 0 then Some(Parsed([], at))
    else
      match ParseSegment(b, at)
      case None => None
      case Some(Parsed(s, next)) =>
        match ParseSegments(b, next, n - 1)
        case None => None
        case Some(Parsed(rest, end)) => Some(Parsed([s] + rest, end))
  }

  /** The segments `b` spells out, before their hashes are checked. */
  function Parse(b: seq<byte>): Option<seq<Segment>> {
    if |b| < 16 || b[..8] != MAGIC || U64At(b, 8) > MAXIMUM_SEGMENTS then None
    else
      match ParseSegments(b, 16, U64At(b, 8))
      case None => None
      case Some(Parsed(ss, next)) => if next == |b| then Some(ss) else None
  }

  // ---- the reader ----------------------------------------------------------------------------

  class Cursor {
    const bytes: seq<byte>
    var offset: nat

    ghost predicate Valid()
      reads this
    {
      offset <= |bytes|
    }

    constructor (bytes: seq<byte>)
      ensures Valid() && this.bytes == bytes && offset == 0
    {
      this.bytes := bytes;
      offset := 0;
    }

    /** Whether `n` more bytes can be taken. */
    predicate Can(n: nat)
      reads this
    {
      offset + n <= |bytes|
    }

    method ReadU64() returns (r: Option<u64>)
      requires Valid()
      modifies this
      ensures Valid()
      ensures r == if old(Can(8)) then Some(U64At(bytes, old(offset))) else None
      ensures offset == if r.Some? then old(offset) + 8 else old(offset)
    {
      if offset + 8 > |bytes| { return None; }
      var value := ReadScalar(bytes, offset, 8);
      assert value == U64At(bytes, offset);
      offset := offset + 8;
      return Some(value);
    }

    method ReadU32() returns (r: Option<u32>)
      requires Valid()
      modifies this
      ensures Valid()
      ensures r == if old(Can(4)) then Some(U32At(bytes, old(offset))) else None
      ensures offset == if r.Some? then old(offset) + 4 else old(offset)
    {
      if offset + 4 > |bytes| { return None; }
      var value := ReadScalar(bytes, offset, 4);
      assert value == U32At(bytes, offset);
      offset := offset + 4;
      return Some(value);
    }

    method ReadDigest() returns (r: Option<Digest>)
      requires Valid()
      modifies this
      ensures Valid()
      ensures r == if old(Can(32)) then Some(bytes[old(offset)..old(offset) + 32]) else None
      ensures offset == if r.Some? then old(offset) + 32 else old(offset)
    {
      if offset + 32 > |bytes| { return None; }
      offset := offset + 32;
      return Some(bytes[offset - 32..offset]);
    }
  }

  method ReadRecord(cursor: Cursor) returns (r: Option<Record>)
    requires cursor.Valid()
    modifies cursor
    ensures cursor.Valid()
    ensures r == if old(cursor.Can(124)) then Some(RecordAt(cursor.bytes, old(cursor.offset))) else None
    ensures r.Some? ==> cursor.offset == old(cursor.offset) + 124
  {
    hide U64At, U32At;
    var sequence := cursor.ReadU64();
    var monotonic := cursor.ReadU64();
    var reason := cursor.ReadU32();
    var evidence := cursor.ReadDigest();
    if sequence.None? || monotonic.None? || reason.None? || evidence.None? { return None; }
    var c := ReadCorrelation(cursor);
    if c.None? { return None; }
    return Some(Record(sequence.value, monotonic.value, reason.value, evidence.value, c.value));
  }

  method ReadCorrelation(cursor: Cursor) returns (c: Option<Correlation>)
    requires cursor.Valid()
    modifies cursor
    ensures cursor.Valid()
    ensures c.Some? <==> old(cursor.Can(72))
    ensures c.Some? ==> var b, at := cursor.bytes, old(cursor.offset);
      && cursor.offset == at + 72
      && c.value == Correlation(U64At(b, at), U64At(b, at + 8), U64At(b, at + 16), U64At(b, at + 24), U64At(b, at + 32),
                                U64At(b, at + 40), U64At(b, at + 48), U64At(b, at + 56), U64At(b, at + 64))
  {
    hide U64At;
    var flow := cursor.ReadU64();
    var target := cursor.ReadU64();
    var file := cursor.ReadU64();
    var volume := cursor.ReadU64();
    var provenance := cursor.ReadU64();
    var process := cursor.ReadU64();
    var parent := cursor.ReadU64();
    var policy := cursor.ReadU64();
    var model := cursor.ReadU64();
    if flow.None? || target.None? || file.None? || volume.None? || provenance.None? ||
       process.None? || parent.None? || policy.None? || model.None? { return None; }
    return Some(Correlation(flow.value, target.value, file.value, volume.value, provenance.value, process.value,
                            parent.value, policy.value, model.value));
  }

  method ReadRecords(cursor: Cursor, count: nat) returns (r: Option<seq<Record>>)
    requires cursor.Valid()
    modifies cursor
    ensures cursor.Valid()
    ensures r.None? <==> ParseRecords(cursor.bytes, old(cursor.offset), count).None?
    ensures r.Some? ==> ParseRecords(cursor.bytes, old(cursor.offset), count) == Some(Parsed(r.value, cursor.offset))
  {
    hide RecordAt;
    var records: seq<Record> := [];
    ghost var whole := ParseRecords(cursor.bytes, cursor.offset, count);
    assert whole.Some? ==> [] + whole.value.value == whole.value.value;
    for i := 0 to count
      invariant cursor.Valid() && |records| == i
      invariant match ParseRecords(cursor.bytes, cursor.offset, count - i)
        case None => whole.None?
        case Some(Parsed(rest, next)) => whole == Some(Parsed(records + rest, next))
    {
      var record := ReadRecord(cursor);
      if record.None? { return None; }
      ghost var later := ParseRecords(cursor.bytes, cursor.offset, count - (i + 1));
      if later.Some? {
        assert records + ([record.value] + later.value.value) == (records + [record.value]) + later.value.value;
      }
      records := records + [record.value];
    }
    assert records + [] == records;
    return Some(records);
  }

  method ReadSegment(cursor: Cursor) returns (r: Option<Segment>)
    requires cursor.Valid()
    modifies cursor
    ensures cursor.Valid()
    ensures r.None? <==> ParseSegment(cursor.bytes, old(cursor.offset)).None?
    ensures r.Some? ==> ParseSegment(cursor.bytes, old(cursor.offset)) == Some(Parsed(r.value, cursor.offset))
  {
    hide U64At, ParseRecords;
    var sequence := cursor.ReadU64();
    var previous := cursor.ReadDigest();
    var hash := cursor.ReadDigest();
    var count := cursor.ReadU64();
    if sequence.None? || previous.None? || hash.None? || count.None? || count.value > 4096 { return None; }
    var records := ReadRecords(cursor, count.value);
    if records.None? { return None; }
    return Some(Segment(sequence.value, previous.value, hash.value, records.value));
  }

  datatype Outcome = Malformed | Unverified | Restored(chain: Chain)

  /** Reads the segments onto an empty chain. */
  method ReadSegments(cursor: Cursor, count: nat, chain: Chain) returns (ok: bool)
    requires cursor.Valid() && chain.segments == []
    modifies cursor, chain
    ensures cursor.Valid()
    ensures ok <==> ParseSegments(cursor.bytes, old(cursor.offset), count).Some?
    ensures ok ==>
      ParseSegments(cursor.bytes, old(cursor.offset), count) == Some(Parsed(chain.segments, cursor.offset))
  {
    hide ParseSegment;
    ghost var whole := ParseSegments(cursor.bytes, cursor.offset, count);
    assert whole.Some? ==> [] + whole.value.value == whole.value.value;
    for i := 0 to count
      invariant cursor.Valid() && |chain.segments| == i
      invariant match ParseSegments(cursor.bytes, cursor.offset, count - i)
        case None => whole.None?
        case Some(Parsed(rest, next)) => whole == Some(Parsed(chain.segments + rest, next))
    {
      var segment := ReadSegment(cursor);
      if segment.None? { return false; }
      ghost var later := ParseSegments(cursor.bytes, cursor.offset, count - (i + 1));
      if later.Some? {
        assert chain.segments + ([segment.value] + later.value.value)
          == (chain.segments + [segment.value]) + later.value.value;
      }
      chain.segments := chain.segments + [segment.value];
    }
    assert chain.segments + [] == chain.segments;
    return true;
  }

  method CheckMagic(b: seq<byte>) returns (ok: bool)
    requires |b| >= 8
    ensures ok <==> b[..8] == MAGIC
  {
    for index := 0 to 8
      invariant b[..index] == MAGIC[..index]
    {
      if b[index] != MAGIC[index] {
        assert b[..8][index] != MAGIC[index];
        return false;
      }
      assert b[..index + 1] == b[..index] + [b[index]];
    }
    assert MAGIC[..8] == MAGIC;
    return true;
  }

  /** Reads a chain back; the result is verified before it is handed out. */
  method Deserialize(hash: Hasher, b: seq<byte>) returns (r: Outcome)
    ensures r.Malformed? <==> Parse(b).None?
    ensures r.Unverified? <==> Parse(b).Some? && !Verified(hash, Parse(b).value)
    ensures r.Restored? ==> fresh(r.chain) && r.chain.hash == hash && Parse(b) == Some(r.chain.segments)
    ensures r.Restored? ==> Verified(hash, r.chain.segments)
  {
    hide U64At, ParseSegments, Verified;
    if |b| < 16 { return Malformed; }
    var magic := CheckMagic(b);
    if !magic { return Malformed; }
    var cursor := new Cursor(b);
    cursor.offset := 8;
    var count := cursor.ReadU64();
    if count.None? || count.value > 1_000_000 { return Malformed; }
    var chain := new Chain(hash);
    var ok := ReadSegments(cursor, count.value, chain);
    if !ok || cursor.offset != |b| { return Malformed; }
    var status := chain.Verify();
    return if status.Ok? then Restored(chain) else Unverified;
  }

  // ---- the reader inverts the writer ---------------------------------------------------------

  lemma {:induction false} WordsStand(b: seq<byte>, at: nat, xs: seq<u64>)
    requires at + 8 * |xs| <= |b| && forall i | 0 <= i < |xs| :: xs[i] == U64At(b, at + 8 * i)
    ensures Words(xs) == b[at..at + 8 * |xs|]
    decreases |xs|
  {
    hide U64At;
    if xs != [] {
      U64Stands(b, at);
      assert forall i | 0 <= i < |xs| - 1 :: xs[1..][i] == U64At(b, at + 8 + 8 * i);
      hide LittleEndian;
      WordsStand(b, at + 8, xs[1..]);
      assert b[at..at + 8] + b[at + 8..at + 8 * |xs|] == b[at..at + 8 * |xs|];
    }
  }

  lemma PrefixStands(b: seq<byte>, at: nat)
    requires at + 124 <= |b|
    ensures Prefix(RecordAt(b, at)) == b[at..at + 52]
  {
    var r := RecordAt(b, at);
    hide U64At, LittleEndian;
    U64Stands(b, at);
    U64Stands(b, at + 8);
    assert LittleEndian(r.reasonMask, 4) == b[at + 16..at + 20] by {
      FromLittleEndianRoundTrip(b[at + 16..at + 20]);
    }
    FourPieces(b, at);
  }

  lemma FourPieces(b: seq<byte>, at: nat)
    requires at + 52 <= |b|
    ensures b[at..at + 8] + b[at + 8..at + 16] + b[at + 16..at + 20] + b[at + 20..at + 52] == b[at..at + 52]
  {
    assert b[at..at + 8] + b[at + 8..at + 16] == b[at..at + 16];
    assert b[at..at + 16] + b[at + 16..at + 20] == b[at..at + 20];
  }

  /** The 124 bytes of a record spell out the record they are read as. */
  lemma RecordStands(b: seq<byte>, at: nat)
    requires at + 124 <= |b|
    ensures RecordWire(RecordAt(b, at)) == b[at..at + 124]
  {
    hide U64At, U32At, Words, Prefix;
    PrefixStands(b, at);
    WordsStand(b, at + 52, Fields(RecordAt(b, at).correlation));
    assert b[at..at + 124] == b[at..at + 52] + b[at + 52..at + 124];
  }

  lemma RecordWireInjective(r: Record, s: Record)
    requires RecordWire(r) == RecordWire(s)
    ensures r == s
  {
    hide Prefix, Words;
    var p, q := RecordWire(r), RecordWire(s);
    assert p[..52] == Prefix(r) && q[..52] == Prefix(s);
    assert p[52..] == Words(Fields(r.correlation)) && q[52..] == Words(Fields(s.correlation));
    PrefixInjective(r, s);
    WordsInjective(Fields(r.correlation), Fields(s.correlation));
    assert forall i | 0 <= i < 9 :: Fields(r.correlation)[i] == Fields(s.correlation)[i];
  }

  lemma {:induction false} RecordsExact(b: seq<byte>, at: nat, rs: seq<Record>, next: nat)
    requires at <= |b|
    ensures ParseRecords(b, at, |rs|) == Some(Parsed(rs, next)) <==>
      next == at + 124 * |rs| <= |b| && b[at..next] == RecordsWire(rs)
    decreases |rs|
  {
    hide RecordAt, RecordWire;
    if rs != [] && at + 124 <= |b| {
      var r, rest := rs[0], rs[1..];
      RecordsExact(b, at + 124, rest, next);
      RecordStands(b, at);
      assert rs == [r] + rest;
      if next == at + 124 * |rs| <= |b| {
        assert b[at..next] == b[at..at + 124] + b[at + 124..next];
        if b[at..next] == RecordsWire(rs) {
          assert b[at..next][..124] == RecordWire(r) && b[at..next][124..] == RecordsWire(rest);
          RecordWireInjective(RecordAt(b, at), r);
        }
      }
    }
  }

  lemma HeadStands(b: seq<byte>, at: nat, s: Segment)
    requires at + 80 <= |b| && |s.records| < 0x1_0000_0000_0000_0000
    ensures b[at..at + 80] == SegmentHead(s) <==>
      && U64At(b, at) == s.sequence && b[at + 8..at + 40] == s.previous && b[at + 40..at + 72] == s.hash
      && U64At(b, at + 72) == |s.records|
  {
    hide U64At, LittleEndian;
    var h := b[at..at + 80];
    SliceSlice(b, at, 80, 0, 8);
    SliceSlice(b, at, 80, 8, 40);
    SliceSlice(b, at, 80, 40, 72);
    SliceSlice(b, at, 80, 72, 80);
    U64Stands(b, at);
    U64Stands(b, at + 72);
    var w := SegmentHead(s);
    assert w[..8] == LittleEndian(s.sequence, 8) && w[8..40] == s.previous && w[40..72] == s.hash;
    assert w[72..] == LittleEndian(|s.records|, 8);
    if h == w {
      U64AtWire(b, at, s.sequence);
      U64AtWire(b, at + 72, |s.records|);
    }
    assert h == h[0..8] + h[8..40] + h[40..72] + h[72..80];
  }

  lemma SegmentExact(b: seq<byte>, at: nat, s: Segment, next: nat)
    requires at <= |b|
    ensures ParseSegment(b, at) == Some(Parsed(s, next)) <==>
      SegmentWithin(s) && next == at + |SegmentWire(s)| <= |b| && b[at..next] == SegmentWire(s)
  {
    hide U64At, ParseRecords, RecordsWire, SegmentHead;
    if at + 80 <= |b| && SegmentWithin(s) {
      HeadStands(b, at, s);
      RecordsExact(b, at + 80, s.records, next);
      if next == at + |SegmentWire(s)| <= |b| {
        assert b[at..next] == b[at..at + 80] + b[at + 80..next];
        assert SegmentWire(s)[..80] == SegmentHead(s) && SegmentWire(s)[80..] == RecordsWire(s.records);
        assert b[at..next][..80] == b[at..at + 80] && b[at..next][80..] == b[at + 80..next];
      }
    }
  }

  lemma {:induction false} SegmentsExact(b: seq<byte>, at: nat, ss: seq<Segment>, next: nat)
    requires at <= |b|
    ensures ParseSegments(b, at, |ss|) == Some(Parsed(ss, next)) <==>
      && (forall i | 0 <= i < |ss| :: SegmentWithin(ss[i]))
      && next == at + |SegmentsWire(ss)| <= |b| && b[at..next] == SegmentsWire(ss)
    decreases |ss|
  {
    hide ParseSegment, SegmentWire, SegmentWithin;
    if ss != [] {
      var s, rest := ss[0], ss[1..];
      var mid := at + |SegmentWire(s)|;
      SegmentExact(b, at, s, mid);
      assert ss == [s] + rest;
      if ParseSegments(b, at, |ss|) == Some(Parsed(ss, next)) {
        var p := ParseSegment(b, at).value;
        SegmentExact(b, at, p.value, p.next);
        SegmentsExact(b, p.next, rest, next);
        assert b[at..next] == b[at..mid] + b[mid..next];
      }
      if (forall i | 0 <= i < |ss| :: SegmentWithin(ss[i]))
         && next == at + |SegmentsWire(ss)| <= |b| && b[at..next] == SegmentsWire(ss) {
        assert b[at..next][..|SegmentWire(s)|] == b[at..mid] && b[at..next][|SegmentWire(s)|..] == b[mid..next];
        assert forall i | 0 <= i < |rest| :: rest[i] == ss[i + 1];
        SegmentsExact(b, mid, rest, next);
      }
    }
  }

  /** Reading succeeds on exactly the byte strings the writer produces from chains within the size limits. */
  lemma ParseExact(b: seq<byte>, ss: seq<Segment>)
    ensures Parse(b) == Some(ss) <==> Within(ss) && Wire(ss) == b
  {
    hide U64At, ParseSegments, SegmentsWire, SegmentWithin, LittleEndian;
    if |b| >= 16 {
      assert b == b[..8] + b[8..16] + b[16..];
      assert b[16..|b|] == b[16..];
      U64Stands(b, 8);
      SegmentsExact(b, 16, ss, |b|);
      if Within(ss) && Wire(ss) == b {
        assert Wire(ss)[..8] == MAGIC && Wire(ss)[8..16] == LittleEndian(|ss|, 8) && Wire(ss)[16..] == SegmentsWire(ss);
        U64AtWire(b, 8, |ss|);
      }
    }
  }

  /** Exporting and reading back restores a chain exactly when it verifies and is within the size limits. */
  lemma ExportRoundTrip(hash: Hasher, ss: seq<Segment>)
    requires Verified(hash, ss)
    ensures Parse(Wire(ss)) == Some(ss) <==> |ss| <= 1_000_000 && forall i | 0 <= i < |ss| :: |ss[i].records| <= 4096
  {
    assert Within(ss) <==> |ss| <= 1_000_000 && forall i | 0 <= i < |ss| :: |ss[i].records| <= 4096;
    hide Verified, Wire, Parse, Within;
    ParseExact(Wire(ss), ss);
  }

  // ---- where everything lies -----------------------------------------------------------------

  /** The export begins with the letters AISHAD02 and the number of segments. */
  lemma ChainLayout(ss: seq<Segment>)
    requires |ss| < 0x1_0000_0000_0000_0000
    ensures var b := Wire(ss);
      && |b| >= 16 && (forall i | 0 <= i < 8 :: b[i] as char == "AISHAD02"[i])
      && FromLittleEndian(b[8..16]) == |ss| && b[16..] == SegmentsWire(ss)
  {
    hide LittleEndian, FromLittleEndian, SegmentsWire;
    assert Wire(ss)[8..16] == LittleEndian(|ss|, 8);
    Pow256Values();
    LittleEndianRoundTrip(|ss|, 8);
  }

  /** A segment: its number, the previous hash, its own hash, the number of its records, the records. */
  lemma SegmentWireLayout(s: Segment)
    requires |s.records| < 0x1_0000_0000_0000_0000
    ensures var b := SegmentWire(s);
      && |b| == 80 + 124 * |s.records| && FromLittleEndian(b[..8]) == s.sequence && b[8..40] == s.previous
      && b[40..72] == s.hash && FromLittleEndian(b[72..80]) == |s.records| && b[80..] == RecordsWire(s.records)
  {
    hide LittleEndian, FromLittleEndian, RecordsWire;
    var b := SegmentWire(s);
    assert b[..8] == LittleEndian(s.sequence, 8) && b[72..80] == LittleEndian(|s.records|, 8);
    Pow256Values();
    LittleEndianRoundTrip(s.sequence, 8);
    LittleEndianRoundTrip(|s.records|, 8);
  }

  /** An exported record: as it is hashed, but with its correlation even if that is all zero. */
  lemma RecordWireLayout(r: Record, k: nat)
    requires k < 9
    ensures var b := RecordWire(r);
      && b[..52] == RecordBytes(r)[..52] && (!IsEmpty(r.correlation) ==> b == RecordBytes(r))
      && FromLittleEndian(b[52..][8 * k..8 * k + 8]) == Fields(r.correlation)[k]
  {
    hide Words, Prefix, FromLittleEndian;
    assert RecordWire(r)[52..] == Words(Fields(r.correlation));
    WordAt(Fields(r.correlation), k, 8 * k);
  }
}
