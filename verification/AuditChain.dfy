/**
 The audit hash chain. The hash is a parameter, so what is proved holds of any hash function: two verifying
 chains that agree on a checkpoint are equal, or they exhibit two byte strings with the same hash.
 */
module AuditChain {
  import opened Bytes
  import Sha256

  type Digest = d: seq<byte> | |d| == 32 witness Sha256.Zeros(32)
  type Hasher = seq<byte> -> Digest

  const ZERO: Digest := Sha256.Zeros(32)

  datatype Correlation = Correlation(flowId: u64, objectId: u64, fileId: u64, volumeId: u64, provenanceId: u64,
                                     processId: u64, parentProcessId: u64, policyVersion: u64, modelVersion: u64)

  datatype Record = Record(sequence: u64, monotonicNs: u64, reasonMask: u32, evidence: Digest, correlation: Correlation)

  datatype Segment = Segment(sequence: u64, previous: Digest, hash: Digest, records: seq<Record>)

  datatype Checkpoint = Checkpoint(sequence: u64, root: Digest, signer: Digest, hash: Digest)

  datatype Status = Ok | IntegrityFailure | NotFound

  // ---- what is hashed ------------------------------------------------------------------------

  function Fields(c: Correlation): (r: seq<u64>)
    ensures |r| == 9
  {
    [c.flowId, c.objectId, c.fileId, c.volumeId, c.provenanceId, c.processId, c.parentProcessId, c.policyVersion,
     c.modelVersion]
  }

  function Words(xs: seq<u64>): (r: seq<byte>)
    ensures |r| == 8 * |xs|
  {
    if xs == [] then [] else LittleEndian(xs[0], 8) + Words(xs[1..])
  }

  predicate IsEmpty(c: Correlation) { c == Correlation(0, 0, 0, 0, 0, 0, 0, 0, 0) }

  function Prefix(r: Record): (b: seq<byte>)
    ensures |b| == 52
  {
    LittleEndian(r.sequence, 8) + LittleEndian(r.monotonicNs, 8) + LittleEndian(r.reasonMask, 4) + r.evidence
  }

  /** The correlation is left out when it is all zero. */
  function RecordBytes(r: Record): (b: seq<byte>)
    ensures |b| == if IsEmpty(r.correlation) then 52 else 124
  {
    Prefix(r) + (if IsEmpty(r.correlation) then [] else Words(Fields(r.correlation)))
  }

  function Digests(hash: Hasher, rs: seq<Record>): (b: seq<byte>)
    ensures |b| == 32 * |rs|
  {
    if rs == [] then [] else Digests(hash, rs[..|rs| - 1]) + hash(RecordBytes(rs[|rs| - 1]))
  }

  function SegmentBytes(hash: Hasher, previous: Digest, rs: seq<Record>): seq<byte> { previous + Digests(hash, rs) }

  function CheckpointBytes(sequence: u64, root: Digest, signer: Digest): seq<byte> {
    LittleEndian(sequence, 8) + root + signer
  }

  // ---- chains --------------------------------------------------------------------------------

  function Previous(ss: seq<Segment>, i: nat): Digest
    requires i <= |ss|
  {
    if i == 0 then ZERO else ss[i - 1].hash
  }

  predicate Linked(hash: Hasher, ss: seq<Segment>, i: nat)
    requires i < |ss|
  {
    && ss[i].sequence == (i + 1) % 0x1_0000_0000_0000_0000
    && ss[i].previous == Previous(ss, i)
    && ss[i].hash == hash(SegmentBytes(hash, ss[i].previous, ss[i].records))
  }

  /** Numbered from one, each segment naming its predecessor's hash, each hash right. */
  predicate Verified(hash: Hasher, ss: seq<Segment>) { forall i | 0 <= i < |ss| :: Linked(hash, ss, i) }

  predicate Matches(hash: Hasher, ss: seq<Segment>, c: Checkpoint) {
    && ss != [] && c.sequence == ss[|ss| - 1].sequence && c.root == ss[|ss| - 1].hash
    && c.hash == hash(CheckpointBytes(c.sequence, c.root, c.signer))
  }

  function NextSequence(ss: seq<Segment>): u64 {
    if ss == [] then 1 else (ss[|ss| - 1].sequence + 1) % 0x1_0000_0000_0000_0000
  }

  /** The segment that appending `r` adds. */
  function Appended(hash: Hasher, ss: seq<Segment>, r: Record): Segment {
    var previous := Previous(ss, |ss|);
    Segment(r.sequence, previous, hash(SegmentBytes(hash, previous, [r])), [r])
  }

  method HashRecord(hash: Hasher, r: Record) returns (d: Digest)
    ensures d == hash(RecordBytes(r))
  {
    hide LittleEndian;
    var bytes := AppendScalar([], r.sequence, 8);
    bytes := AppendScalar(bytes, r.monotonicNs, 8);
    bytes := AppendScalar(bytes, r.reasonMask, 4);
    bytes := bytes + r.evidence;
    var c := r.correlation;
    if c.flowId != 0 || c.objectId != 0 || c.fileId != 0 || c.volumeId != 0 || c.provenanceId != 0 ||
       c.processId != 0 || c.parentProcessId != 0 || c.policyVersion != 0 || c.modelVersion != 0 {
      bytes := bytes + Words(Fields(c));
    }
    assert bytes == RecordBytes(r);
    d := hash(bytes);
  }

  method HashSegment(hash: Hasher, previous: Digest, records: seq<Record>) returns (d: Digest)
    ensures d == hash(SegmentBytes(hash, previous, records))
  {
    hide RecordBytes;
    var bytes: seq<byte> := previous;
    for i := 0 to |records|
      invariant bytes == previous + Digests(hash, records[..i])
    {
      var digest := HashRecord(hash, records[i]);
      assert records[..i + 1][..i] == records[..i];
      bytes := bytes + digest;
    }
    assert records[..|records|] == records;
    d := hash(bytes);
  }

  class Chain {
    const hash: Hasher
    var segments: seq<Segment>

    constructor (hash: Hasher)
      ensures this.hash == hash && segments == []
    {
      this.hash := hash;
      segments := [];
    }

    /** Adds one record in a segment of its own; a record out of sequence changes nothing. */
    method Append(r: Record) returns (s: Status)
      modifies this
      ensures s == if r.sequence == NextSequence(old(segments)) then Ok else IntegrityFailure
      ensures segments == if s.Ok? then old(segments) + [Appended(hash, old(segments), r)] else old(segments)
    {
      var next := if segments == [] then 1 else (segments[|segments| - 1].sequence + 1) % 0x1_0000_0000_0000_0000;
      if r.sequence != next { return IntegrityFailure; }
      var previous := if segments == [] then ZERO else segments[|segments| - 1].hash;
      var digest := HashSegment(hash, previous, [r]);
      segments := segments + [Segment(r.sequence, previous, digest, [r])];
      return Ok;
    }

    method Verify() returns (s: Status)
      ensures s == if Verified(hash, segments) then Ok else IntegrityFailure
    {
      hide SegmentBytes;
      var previous := ZERO;
      var expected: u64 := 1;
      for i := 0 to |segments|
        invariant previous == Previous(segments, i) && expected == (i + 1) % 0x1_0000_0000_0000_0000
        invariant forall j | 0 <= j < i :: Linked(hash, segments, j)
      {
        var segment := segments[i];
        var same := Sha256.ConstantTimeEqual(segment.previous, previous);
        if segment.sequence != expected || !same {
          assert !Linked(hash, segments, i);
          return IntegrityFailure;
        }
        var actual := HashSegment(hash, segment.previous, segment.records);
        same := Sha256.ConstantTimeEqual(actual, segment.hash);
        if !same {
          assert !Linked(hash, segments, i);
          return IntegrityFailure;
        }
        previous := segment.hash;
        expected := (expected + 1) % 0x1_0000_0000_0000_0000;
      }
      return Ok;
    }

    method TakeCheckpoint(signer: Digest) returns (c: Option<Checkpoint>)
      ensures c.None? <==> segments == []
      ensures c.Some? ==> c.value.signer == signer && Matches(hash, segments, c.value)
    {
      if segments == [] { return None; }
      var last := segments[|segments| - 1];
      return Some(Checkpoint(last.sequence, last.hash, signer, hash(CheckpointBytes(last.sequence, last.hash, signer))));
    }

    method VerifyCheckpoint(c: Checkpoint) returns (s: Status)
      ensures s == if segments == [] then NotFound else if Matches(hash, segments, c) then Ok else IntegrityFailure
    {
      if segments == [] { return NotFound; }
      var last := segments[|segments| - 1];
      var same := Sha256.ConstantTimeEqual(c.root, last.hash);
      if c.sequence != last.sequence || !same { return IntegrityFailure; }
      var actual := hash(CheckpointBytes(c.sequence, c.root, c.signer));
      same := Sha256.ConstantTimeEqual(actual, c.hash);
      return if same then Ok else IntegrityFailure;
    }
  }

  // ---- runs of append ------------------------------------------------------------------------

  /** Appending to a verifying chain gives a verifying chain; its sequence numbers count modulo 2^64. */
  lemma AppendKeepsVerified(hash: Hasher, ss: seq<Segment>, r: Record)
    requires Verified(hash, ss) && r.sequence == NextSequence(ss)
    ensures Verified(hash, ss + [Appended(hash, ss, r)])
    ensures r.sequence == (|ss| + 1) % 0x1_0000_0000_0000_0000
  {
    hide Linked, Appended;
    var more := ss + [Appended(hash, ss, r)];
    NextNumber(hash, ss);
    forall i | 0 <= i < |more|
      ensures Linked(hash, more, i)
    {
      if i < |ss| { LinkedStays(hash, ss, Appended(hash, ss, r), i); } else { LastLinked(hash, ss, r); }
    }
  }

  lemma NextNumber(hash: Hasher, ss: seq<Segment>)
    requires Verified(hash, ss)
    ensures NextSequence(ss) == (|ss| + 1) % 0x1_0000_0000_0000_0000
  {
    if ss != [] { assert Linked(hash, ss, |ss| - 1); }
  }

  lemma LinkedStays(hash: Hasher, ss: seq<Segment>, s: Segment, i: nat)
    requires i < |ss| && Linked(hash, ss, i)
    ensures Linked(hash, ss + [s], i)
  {
    hide SegmentBytes;
  }

  lemma LastLinked(hash: Hasher, ss: seq<Segment>, r: Record)
    requires r.sequence == (|ss| + 1) % 0x1_0000_0000_0000_0000
    ensures Linked(hash, ss + [Appended(hash, ss, r)], |ss|)
  {
    hide SegmentBytes;
  }

  /** The chain that results from appending records one after the other, refusing those out of sequence. */
  function AppendAll(hash: Hasher, rs: seq<Record>): seq<Segment> {
    if rs == [] then []
    else
      var ss, r := AppendAll(hash, rs[..|rs| - 1]), rs[|rs| - 1];
      if r.sequence == NextSequence(ss) then ss + [Appended(hash, ss, r)] else ss
  }

  lemma {:induction false} EveryRunVerifies(hash: Hasher, rs: seq<Record>)
    ensures Verified(hash, AppendAll(hash, rs)) && |AppendAll(hash, rs)| <= |rs|
  {
    hide Verified, Appended;
    if rs != [] {
      EveryRunVerifies(hash, rs[..|rs| - 1]);
      var ss, r := AppendAll(hash, rs[..|rs| - 1]), rs[|rs| - 1];
      if r.sequence == NextSequence(ss) { AppendKeepsVerified(hash, ss, r); }
    } else {
      assert Verified(hash, []) by { NothingToVerify(hash); }
    }
  }

  lemma NothingToVerify(hash: Hasher)
    ensures Verified(hash, [])
  {
  }

  /** A verifying chain begins with number one and with 32 zero bytes in place of an earlier hash. */
  lemma VerifiedStarts(hash: Hasher, ss: seq<Segment>)
    requires Verified(hash, ss) && ss != []
    ensures ss[0].sequence == 1 && ss[0].previous == seq(32, _ => 0)
  {
    hide SegmentBytes;
    assert Linked(hash, ss, 0);
  }

  // ---- tamper evidence -----------------------------------------------------------------------

  predicate Collision(hash: Hasher, x: seq<byte>, y: seq<byte>) { x != y && hash(x) == hash(y) }

  lemma {:induction false} WordsInjective(xs: seq<u64>, ys: seq<u64>)
    requires |xs| == |ys| && Words(xs) == Words(ys)
    ensures xs == ys
  {
    if xs != [] {
      assert Words(xs)[..8] == LittleEndian(xs[0], 8) && Words(ys)[..8] == LittleEndian(ys[0], 8);
      assert Words(xs)[8..] == Words(xs[1..]) && Words(ys)[8..] == Words(ys[1..]);
      Pow256Values();
      LittleEndianRoundTrip(xs[0], 8);
      LittleEndianRoundTrip(ys[0], 8);
      WordsInjective(xs[1..], ys[1..]);
      assert xs == [xs[0]] + xs[1..] && ys == [ys[0]] + ys[1..];
    }
  }

  lemma PrefixInjective(r: Record, s: Record)
    requires Prefix(r) == Prefix(s)
    ensures r == s.(correlation := r.correlation)
  {
    hide LittleEndian;
    var p, q := Prefix(r), Prefix(s);
    assert p[..8] == LittleEndian(r.sequence, 8) && q[..8] == LittleEndian(s.sequence, 8);
    assert p[8..16] == LittleEndian(r.monotonicNs, 8) && q[8..16] == LittleEndian(s.monotonicNs, 8);
    assert p[16..20] == LittleEndian(r.reasonMask, 4) && q[16..20] == LittleEndian(s.reasonMask, 4);
    assert p[20..] == r.evidence && q[20..] == s.evidence;
    Pow256Values();
    LittleEndianRoundTrip(r.sequence, 8);
    LittleEndianRoundTrip(s.sequence, 8);
    LittleEndianRoundTrip(r.monotonicNs, 8);
    LittleEndianRoundTrip(s.monotonicNs, 8);
    LittleEndianRoundTrip(r.reasonMask, 4);
    LittleEndianRoundTrip(s.reasonMask, 4);
  }

  /** Leaving out an all-zero correlation makes no two records look the same. */
  lemma RecordBytesInjective(r: Record, s: Record)
    requires RecordBytes(r) == RecordBytes(s)
    ensures r == s
  {
    hide Prefix, Words;
    var p, q := RecordBytes(r), RecordBytes(s);
    assert p[..52] == Prefix(r) && q[..52] == Prefix(s);
    PrefixInjective(r, s);
    if !IsEmpty(r.correlation) {
      assert p[52..] == Words(Fields(r.correlation)) && q[52..] == Words(Fields(s.correlation));
      WordsInjective(Fields(r.correlation), Fields(s.correlation));
      assert forall i | 0 <= i < 9 :: Fields(r.correlation)[i] == Fields(s.correlation)[i];
    }
  }

  /** Where the fields of a record lie among the bytes that are hashed. */
  lemma RecordLayout(r: Record)
    ensures var b := RecordBytes(r);
      && |b| >= 52 && FromLittleEndian(b[..8]) == r.sequence && FromLittleEndian(b[8..16]) == r.monotonicNs
      && FromLittleEndian(b[16..20]) == r.reasonMask && b[20..52] == r.evidence
    ensures !IsEmpty(r.correlation) ==>
      var b, c := RecordBytes(r)[52..], r.correlation;
      && |b| == 72 && FromLittleEndian(b[..8]) == c.flowId && FromLittleEndian(b[8..16]) == c.objectId
      && FromLittleEndian(b[16..24]) == c.fileId && FromLittleEndian(b[24..32]) == c.volumeId
      && FromLittleEndian(b[32..40]) == c.provenanceId && FromLittleEndian(b[40..48]) == c.processId
      && FromLittleEndian(b[48..56]) == c.parentProcessId && FromLittleEndian(b[56..64]) == c.policyVersion
      && FromLittleEndian(b[64..72]) == c.modelVersion
  {
    hide LittleEndian, FromLittleEndian, Words;
    var b := RecordBytes(r);
    assert b[..8] == LittleEndian(r.sequence, 8) && b[8..16] == LittleEndian(r.monotonicNs, 8);
    assert b[16..20] == LittleEndian(r.reasonMask, 4) && b[20..52] == r.evidence;
    Pow256Values();
    LittleEndianRoundTrip(r.sequence, 8);
    LittleEndianRoundTrip(r.monotonicNs, 8);
    LittleEndianRoundTrip(r.reasonMask, 4);
    if !IsEmpty(r.correlation) {
      var xs := Fields(r.correlation);
      assert b[52..] == Words(xs);
      WordAt(xs, 0, 0);
      WordAt(xs, 1, 8);
      WordAt(xs, 2, 16);
      WordAt(xs, 3, 24);
      WordAt(xs, 4, 32);
      WordAt(xs, 5, 40);
      WordAt(xs, 6, 48);
      WordAt(xs, 7, 56);
      WordAt(xs, 8, 64);
      assert b[52..][0..8] == b[52..][..8];
    }
  }

  lemma {:induction false} WordAt(xs: seq<u64>, k: nat, at: nat)
    requires k < |xs| && at == 8 * k
    ensures FromLittleEndian(Words(xs)[at..at + 8]) == xs[k]
  {
    if k == 0 {
      assert Words(xs)[0..8] == LittleEndian(xs[0], 8);
      Pow256Values();
      LittleEndianRoundTrip(xs[0], 8);
    } else {
      WordAt(xs[1..], k - 1, at - 8);
      assert Words(xs)[at..at + 8] == Words(xs[1..])[at - 8..at];
    }
  }

  /** Equal digest lists come from equal records, or from a collision. */
  lemma {:induction false} DigestsBind(hash: Hasher, rs: seq<Record>, ts: seq<Record>) returns (x: seq<byte>, y: seq<byte>)
    requires Digests(hash, rs) == Digests(hash, ts)
    ensures rs == ts || Collision(hash, x, y)
    decreases |rs|
  {
    hide RecordBytes;
    x, y := [], [];
    assert |rs| == |ts|;
    if rs != [] {
      var n := |rs| - 1;
      var a, b := Digests(hash, rs), Digests(hash, ts);
      assert a[..32 * n] == Digests(hash, rs[..n]) && b[..32 * n] == Digests(hash, ts[..n]);
      assert a[32 * n..] == hash(RecordBytes(rs[n])) && b[32 * n..] == hash(RecordBytes(ts[n]));
      if RecordBytes(rs[n]) != RecordBytes(ts[n]) {
        x, y := RecordBytes(rs[n]), RecordBytes(ts[n]);
      } else {
        RecordBytesInjective(rs[n], ts[n]);
        x, y := DigestsBind(hash, rs[..n], ts[..n]);
        assert rs == rs[..n] + [rs[n]] && ts == ts[..n] + [ts[n]];
      }
    }
  }

  lemma {:induction false} DigestAt(hash: Hasher, rs: seq<Record>, i: nat)
    requires i < |rs|
    ensures Digests(hash, rs)[32 * i..32 * i + 32] == hash(RecordBytes(rs[i]))
    decreases |rs|
  {
    hide RecordBytes;
    var n := |rs| - 1;
    if i < n {
      DigestAt(hash, rs[..n], i);
      assert Digests(hash, rs)[32 * i..32 * i + 32] == Digests(hash, rs[..n])[32 * i..32 * i + 32];
    }
  }

  /** Where the previous hash and the record hashes lie among the bytes that are hashed. */
  lemma SegmentLayout(hash: Hasher, previous: Digest, rs: seq<Record>, i: nat)
    requires i < |rs|
    ensures var b := SegmentBytes(hash, previous, rs);
      |b| == 32 + 32 * |rs| && b[..32] == previous && b[32..][32 * i..32 * i + 32] == hash(RecordBytes(rs[i]))
  {
    hide Digests, RecordBytes;
    DigestAt(hash, rs, i);
    assert SegmentBytes(hash, previous, rs)[32..] == Digests(hash, rs);
  }

  /** A segment hash fixes the previous hash and the records, up to a collision. */
  lemma SegmentBinds(hash: Hasher, a: Segment, b: Segment) returns (x: seq<byte>, y: seq<byte>)
    requires a.hash == hash(SegmentBytes(hash, a.previous, a.records))
    requires b.hash == hash(SegmentBytes(hash, b.previous, b.records))
    requires a.hash == b.hash
    ensures (a.previous == b.previous && a.records == b.records) || Collision(hash, x, y)
  {
    hide Digests;
    var p, q := SegmentBytes(hash, a.previous, a.records), SegmentBytes(hash, b.previous, b.records);
    x, y := p, q;
    if p == q {
      assert p[..32] == a.previous && q[..32] == b.previous;
      assert p[32..] == Digests(hash, a.records) && q[32..] == Digests(hash, b.records);
      x, y := DigestsBind(hash, a.records, b.records);
    }
  }

  /** One hash binds the whole history before it: equal hashes at the same place mean equal prefixes. */
  lemma {:induction false} HashBindsHistory(hash: Hasher, ss: seq<Segment>, ts: seq<Segment>, n: nat)
    returns (x: seq<byte>, y: seq<byte>)
    requires Verified(hash, ss) && Verified(hash, ts) && n <= |ss| && n <= |ts|
    requires n > 0 ==> ss[n - 1].hash == ts[n - 1].hash
    ensures ss[..n] == ts[..n] || Collision(hash, x, y)
    decreases n
  {
    x, y := [], [];
    if n > 0 {
      assert Linked(hash, ss, n - 1) && Linked(hash, ts, n - 1);
      hide Verified, SegmentBytes;
      x, y := SegmentBinds(hash, ss[n - 1], ts[n - 1]);
      if !Collision(hash, x, y) {
        x, y := HashBindsHistory(hash, ss, ts, n - 1);
        assert ss[..n] == ss[..n - 1] + [ss[n - 1]] && ts[..n] == ts[..n - 1] + [ts[n - 1]];
      }
    }
  }

  lemma SequenceAt(hash: Hasher, ss: seq<Segment>, i: nat)
    requires Verified(hash, ss) && i < |ss| < 0x1_0000_0000_0000_0000
    ensures ss[i].sequence == i + 1
  {
    hide SegmentBytes;
    assert Linked(hash, ss, i);
  }

  /**
   Tamper evidence: two chains that verify and match the same checkpoint are equal in every record and hash,
   or two different byte strings with the same hash can be read off from them.
   */
  lemma CheckpointBindsChain(hash: Hasher, ss: seq<Segment>, ts: seq<Segment>, c: Checkpoint)
    returns (x: seq<byte>, y: seq<byte>)
    requires Verified(hash, ss) && Matches(hash, ss, c) && |ss| < 0x1_0000_0000_0000_0000
    requires Verified(hash, ts) && Matches(hash, ts, c) && |ts| < 0x1_0000_0000_0000_0000
    ensures ss == ts || Collision(hash, x, y)
  {
    hide Verified, CheckpointBytes;
    SequenceAt(hash, ss, |ss| - 1);
    SequenceAt(hash, ts, |ts| - 1);
    x, y := HashBindsHistory(hash, ss, ts, |ss|);
    assert ss[..|ss|] == ss && ts[..|ts|] == ts;
  }

  /** Where the fields of a checkpoint lie among the bytes that are hashed. */
  lemma CheckpointLayout(c: Checkpoint)
    ensures var b := CheckpointBytes(c.sequence, c.root, c.signer);
      |b| == 72 && FromLittleEndian(b[..8]) == c.sequence && b[8..40] == c.root && b[40..] == c.signer
  {
    hide LittleEndian, FromLittleEndian;
    var b := CheckpointBytes(c.sequence, c.root, c.signer);
    assert b[..8] == LittleEndian(c.sequence, 8);
    Pow256Values();
    LittleEndianRoundTrip(c.sequence, 8);
  }

  /** Two checkpoints that match some chain each and have the same hash are the same, signer and all, or collide. */
  lemma CheckpointHashBinds(hash: Hasher, ss: seq<Segment>, ts: seq<Segment>, c: Checkpoint, e: Checkpoint)
    returns (x: seq<byte>, y: seq<byte>)
    requires Matches(hash, ss, c) && Matches(hash, ts, e) && c.hash == e.hash
    ensures c == e || Collision(hash, x, y)
  {
    hide CheckpointBytes;
    x, y := CheckpointBytes(c.sequence, c.root, c.signer), CheckpointBytes(e.sequence, e.root, e.signer);
    CheckpointLayout(c);
    CheckpointLayout(e);
  }

  /** A checkpoint that was changed in any field but its hash is refused by every chain, or it collides. */
  lemma ChangedCheckpointRefused(hash: Hasher, ss: seq<Segment>, ts: seq<Segment>, c: Checkpoint, sequence: u64, root: Digest,
                                 signer: Digest)
    returns (x: seq<byte>, y: seq<byte>)
    requires Matches(hash, ss, c) && Checkpoint(sequence, root, signer, c.hash) != c
    ensures !Matches(hash, ts, Checkpoint(sequence, root, signer, c.hash)) || Collision(hash, x, y)
  {
    hide CheckpointBytes;
    x, y := [], [];
    var e := Checkpoint(sequence, root, signer, c.hash);
    if Matches(hash, ts, e) { x, y := CheckpointHashBinds(hash, ss, ts, c, e); }
  }

  /** Changing anything in a verifying chain while keeping its last hash either fails verification or collides. */
  lemma TamperingShows(hash: Hasher, ss: seq<Segment>, ts: seq<Segment>) returns (x: seq<byte>, y: seq<byte>)
    requires Verified(hash, ss) && |ss| == |ts| > 0 && ss != ts
    requires ss[|ss| - 1].hash == ts[|ts| - 1].hash
    ensures !Verified(hash, ts) || Collision(hash, x, y)
  {
    x, y := [], [];
    if Verified(hash, ts) {
      x, y := HashBindsHistory(hash, ss, ts, |ss|);
      assert ss[..|ss|] == ss && ts[..|ts|] == ts;
    }
  }

  /** The hash the program uses. */
  function Sha256Hasher(): Hasher { (message: seq<byte>) => Sha256.Hash(message) }

  /** For that hash: the chains are equal or break SHA-256. */
  lemma CheckpointBindsSha256Chain(ss: seq<Segment>, ts: seq<Segment>, c: Checkpoint)
    returns (x: seq<byte>, y: seq<byte>)
    requires Verified(Sha256Hasher(), ss) && Matches(Sha256Hasher(), ss, c) && |ss| < 0x1_0000_0000_0000_0000
    requires Verified(Sha256Hasher(), ts) && Matches(Sha256Hasher(), ts, c) && |ts| < 0x1_0000_0000_0000_0000
    ensures ss == ts || (x != y && Sha256.Hash(x) == Sha256.Hash(y))
  {
    hide Verified, Matches, Sha256.Hash;
    x, y := CheckpointBindsChain(Sha256Hasher(), ss, ts, c);
  }

  /** For that hash: a checkpoint changed in any field but its hash is refused or breaks SHA-256. */
  lemma ChangedSha256CheckpointRefused(ss: seq<Segment>, ts: seq<Segment>, c: Checkpoint, sequence: u64, root: Digest,
                                       signer: Digest)
    returns (x: seq<byte>, y: seq<byte>)
    requires Matches(Sha256Hasher(), ss, c) && Checkpoint(sequence, root, signer, c.hash) != c
    ensures !Matches(Sha256Hasher(), ts, Checkpoint(sequence, root, signer, c.hash))
      || (x != y && Sha256.Hash(x) == Sha256.Hash(y))
  {
    hide Matches, Sha256.Hash;
    x, y := ChangedCheckpointRefused(Sha256Hasher(), ss, ts, c, sequence, root, signer);
  }
}
