/**
 The records of a ZIP archive (PKWARE APPNOTE, sections 4.3.7, 4.3.12 and 4.3.16) as bytes, and the proof that
 the inspector's parsers read exactly these: every field from where it is put, and nothing else as a record.
 */
module ZipRecords {
  import opened Bytes
  import opened ZipFormat

  /** What a header says of its entry. */
  datatype Fields = Fields(flags: nat, kind: nat, crc: nat, packed: nat, size: nat, name: seq<byte>, extra: seq<byte>)

  /** What the inspector does not look at: versions, time and date, attributes, the comment. */
  datatype Unread = Unread(madeBy: seq<byte>, needed: seq<byte>, stamp: seq<byte>, attributes: seq<byte>,
                           comment: seq<byte>)

  /** Each number fits its place. */
  predicate FieldsFit(f: Fields) {
    Fits(f.flags, 2) && Fits(f.kind, 2) && Fits(f.crc, 4) && Fits(f.packed, 4) && Fits(f.size, 4)
  }

  predicate Sized(f: Fields, u: Unread) {
    && FieldsFit(f) && 0 < |f.name| < 0x1_0000 && |f.extra| < 0x1_0000
    && |u.madeBy| == 2 && |u.needed| == 2 && |u.stamp| == 4 && |u.attributes| == 6 && |u.comment| < 0x1_0000
  }

  // ---- bytes at a place ----------------------------------------------------------------------

  predicate Located(data: seq<byte>, at: nat, part: seq<byte>) {
    at + |part| <= |data| && data[at..at + |part|] == part
  }

  lemma Whole(data: seq<byte>)
    ensures Located(data, 0, data)
  {
  }

  lemma LocatedEnd(data: seq<byte>, at: nat, part: seq<byte>)
    requires Located(data, at, part)
    ensures at + |part| <= |data|
  {
  }

  /** Two parts stand one behind the other exactly when their concatenation stands there. */
  lemma LocatedSplit(data: seq<byte>, at: nat, a: seq<byte>, b: seq<byte>)
    ensures Located(data, at, a + b) <==> Located(data, at, a) && Located(data, at + |a|, b)
  {
    if at + |a| + |b| <= |data| {
      var w := data[at..at + |a| + |b|];
      SliceSlice(data, at, |a| + |b|, 0, |a|);
      SliceSlice(data, at, |a| + |b|, |a|, |a| + |b|);
      assert w == w[0..|a|] + w[|a|..|a| + |b|];
      assert (a + b)[0..|a|] == a && (a + b)[|a|..|a| + |b|] == b;
    }
  }

  lemma LocatedPrefix(a: seq<byte>, b: seq<byte>, at: nat, part: seq<byte>)
    requires Located(a, at, part)
    ensures Located(a + b, at, part)
  {
    assert (a + b)[at..at + |part|] == a[at..at + |part|];
  }

  lemma LocatedWithin(data: seq<byte>, from: nat, a: seq<byte>, at: nat, part: seq<byte>)
    requires Located(data, from, a) && Located(a, at, part)
    ensures Located(data, from + at, part)
  {
    SliceSlice(data, from, |a|, at, at + |part|);
  }

  // ---- numbers at a place --------------------------------------------------------------------

  predicate Fits(v: nat, width: nat) {
    (width == 2 && v < 0x1_0000) || (width == 4 && v < 0x1_0000_0000) || (width == 8 && v < 0x1_0000_0000_0000_0000)
  }

  lemma FitsPower(v: nat, width: nat)
    ensures Fits(v, width) ==> v < Pow256(width)
    ensures width == 2 || width == 4 || width == 8 ==> (Fits(v, width) <==> v < Pow256(width))
  {
    Pow256Values();
    assert Pow256(2) == 0x1_0000 by { assert Pow256(2) == 0x100 * (0x100 * Pow256(0)); }
  }

  /** A number is read exactly where its bytes stand. */
  lemma ReadExact(data: seq<byte>, at: nat, v: nat, width: nat)
    requires width == 2 || width == 4 || width == 8
    ensures Located(data, at, LittleEndian(v, width)) && Fits(v, width) <==> Has(data, at, width) && Read(data, at, width) == v
  {
    hide LittleEndian, FromLittleEndian, Fits;
    FitsPower(v, width);
    if Has(data, at, width) {
      LittleEndianBound(data[at..at + width]);
      FromLittleEndianRoundTrip(data[at..at + width]);
      if v < Pow256(width) { LittleEndianRoundTrip(v, width); }
    }
  }

  lemma SliceStands(data: seq<byte>, at: nat, n: nat)
    requires Has(data, at, n)
    ensures Located(data, at, data[at..at + n])
  {
  }

  // ---- the fixed parts -----------------------------------------------------------------------

  function HeadPart(signature: nat, versions: seq<byte>, f: Fields, u: Unread): (b: seq<byte>)
    ensures |b| == 8 + |versions| + |u.stamp|
  {
    LittleEndian(signature, 4) + versions + LittleEndian(f.flags, 2) + LittleEndian(f.kind, 2) + u.stamp
  }

  function SizesPart(f: Fields): (b: seq<byte>)
    ensures |b| == 12
  {
    LittleEndian(f.crc, 4) + LittleEndian(f.packed, 4) + LittleEndian(f.size, 4)
  }

  function LengthsPart(f: Fields): (b: seq<byte>)
    ensures |b| == 4
  {
    LittleEndian(|f.name|, 2) + LittleEndian(|f.extra|, 2)
  }

  function PlacePart(u: Unread, disk: nat, local: nat): (b: seq<byte>)
    ensures |b| == 8 + |u.attributes|
  {
    LittleEndian(|u.comment|, 2) + LittleEndian(disk, 2) + u.attributes + LittleEndian(local, 4)
  }

  function EndStart(count: nat): (b: seq<byte>)
    ensures |b| == 12
  {
    LittleEndian(END_OF_DIRECTORY, 4) + LittleEndian(0, 2) + LittleEndian(0, 2) + LittleEndian(count, 2)
    + LittleEndian(count, 2)
  }

  function EndRest(size: nat, offset: nat): (b: seq<byte>)
    ensures |b| == 10
  {
    LittleEndian(size, 4) + LittleEndian(offset, 4) + LittleEndian(0, 2)
  }

  /** A local header. */
  function Local(f: Fields, u: Unread): (b: seq<byte>)
    ensures |b| == 24 + |u.needed| + |u.stamp| + |f.name| + |f.extra|
  {
    HeadPart(LOCAL_HEADER, u.needed, f, u) + SizesPart(f) + LengthsPart(f) + f.name + f.extra
  }

  /** A record of the central directory. */
  function Central(f: Fields, u: Unread, disk: nat, local: nat): (b: seq<byte>)
    ensures |b| == 32 + |u.madeBy| + |u.needed| + |u.stamp| + |u.attributes| + |f.name| + |f.extra| + |u.comment|
  {
    HeadPart(CENTRAL_HEADER, u.madeBy + u.needed, f, u) + SizesPart(f) + LengthsPart(f) + PlacePart(u, disk, local)
    + f.name + f.extra + u.comment
  }

  // ---- what stands there is what is read -----------------------------------------------------

  predicate HeadRead(data: seq<byte>, at: nat, signature: nat, f: Fields, n: nat) {
    && Has(data, at, n + 12) && Read32(data, at) == signature
    && Read16(data, at + 4 + n) == f.flags && Read16(data, at + 6 + n) == f.kind
  }

  /** The unread bytes of a head that is read as `f`. */
  predicate UnreadAt(data: seq<byte>, at: nat, versions: seq<byte>, stamp: seq<byte>) {
    Located(data, at + 4, versions) && Located(data, at + 8 + |versions|, stamp)
  }

  lemma HeadExact(data: seq<byte>, at: nat, signature: nat, versions: seq<byte>, f: Fields, u: Unread)
    requires Fits(signature, 4) && |u.stamp| == 4 && FieldsFit(f)
    ensures Located(data, at, HeadPart(signature, versions, f, u)) <==>
      HeadRead(data, at, signature, f, |versions|) && UnreadAt(data, at, versions, u.stamp)
  {
    hide LittleEndian, Located, Read;
    var a, b, c := LittleEndian(signature, 4), LittleEndian(f.flags, 2), LittleEndian(f.kind, 2);
    var n := |versions|;
    LocatedSplit(data, at, a + versions + b + c, u.stamp);
    LocatedSplit(data, at, a + versions + b, c);
    LocatedSplit(data, at, a + versions, b);
    LocatedSplit(data, at, a, versions);
    ReadExact(data, at, signature, 4);
    ReadExact(data, at + 4 + n, f.flags, 2);
    ReadExact(data, at + 6 + n, f.kind, 2);
    HasAll(data, at, n + 12, u.stamp);
  }

  lemma HasAll(data: seq<byte>, at: nat, n: nat, last: seq<byte>)
    requires |last| <= n
    ensures Located(data, at + n - |last|, last) ==> Has(data, at, n)
  {
  }

  lemma SizesExact(data: seq<byte>, at: nat, f: Fields)
    requires FieldsFit(f)
    ensures Located(data, at, SizesPart(f)) <==>
      && Has(data, at, 12) && Read32(data, at) == f.crc && Read32(data, at + 4) == f.packed
      && Read32(data, at + 8) == f.size
  {
    hide LittleEndian, Located, Read;
    var a, b, c := LittleEndian(f.crc, 4), LittleEndian(f.packed, 4), LittleEndian(f.size, 4);
    LocatedSplit(data, at, a + b, c);
    LocatedSplit(data, at, a, b);
    ReadExact(data, at, f.crc, 4);
    ReadExact(data, at + 4, f.packed, 4);
    ReadExact(data, at + 8, f.size, 4);
    HasAll(data, at, 12, c);
  }

  lemma LengthsExact(data: seq<byte>, at: nat, f: Fields)
    requires |f.name| < 0x1_0000 && |f.extra| < 0x1_0000
    ensures Located(data, at, LengthsPart(f)) <==>
      Has(data, at, 4) && Read16(data, at) == |f.name| && Read16(data, at + 2) == |f.extra|
  {
    hide LittleEndian, Located, Read;
    var a, b := LittleEndian(|f.name|, 2), LittleEndian(|f.extra|, 2);
    LocatedSplit(data, at, a, b);
    ReadExact(data, at, |f.name|, 2);
    ReadExact(data, at + 2, |f.extra|, 2);
    HasAll(data, at, 4, b);
  }

  lemma PlaceExact(data: seq<byte>, at: nat, u: Unread, disk: nat, local: nat)
    requires Fits(disk, 2) && Fits(local, 4) && |u.comment| < 0x1_0000 && |u.attributes| == 6
    ensures Located(data, at, PlacePart(u, disk, local)) <==>
      && Has(data, at, 14) && Read16(data, at) == |u.comment| && Read16(data, at + 2) == disk
      && Read32(data, at + 10) == local && Located(data, at + 4, u.attributes)
  {
    hide LittleEndian, Located, Read;
    var a, b, c := LittleEndian(|u.comment|, 2), LittleEndian(disk, 2), LittleEndian(local, 4);
    LocatedSplit(data, at, a + b + u.attributes, c);
    LocatedSplit(data, at, a + b, u.attributes);
    LocatedSplit(data, at, a, b);
    ReadExact(data, at, |u.comment|, 2);
    ReadExact(data, at + 2, disk, 2);
    ReadExact(data, at + 10, local, 4);
    HasAll(data, at, 14, c);
  }

  // ---- directory records ---------------------------------------------------------------------

  function FieldsOf(r: Record): Fields {
    Fields(r.flags, r.kind, r.crc, r.compressed32, r.uncompressed32, r.name, r.extra)
  }

  predicate RecordFits(r: Record) { FieldsFit(FieldsOf(r)) && Fits(r.disk, 2) && Fits(r.local32, 4) }

  /** The bytes of `r`, with whatever is not looked at, stand at `at`. */
  predicate RecordStands(data: seq<byte>, at: nat, r: Record, u: Unread) {
    && RecordFits(r) && Sized(FieldsOf(r), u) && Located(data, at, Central(FieldsOf(r), u, r.disk, r.local32))
    && r.next == at + |Central(FieldsOf(r), u, r.disk, r.local32)|
  }

  /** The same, part by part. */
  predicate RecordParts(data: seq<byte>, at: nat, r: Record, u: Unread) {
    var f := FieldsOf(r);
    var n := |f.name|;
    && Located(data, at, HeadPart(CENTRAL_HEADER, u.madeBy + u.needed, f, u)) && Located(data, at + 16, SizesPart(f))
    && Located(data, at + 28, LengthsPart(f)) && Located(data, at + 32, PlacePart(u, r.disk, r.local32))
    && Located(data, at + 46, f.name) && Located(data, at + 46 + n, f.extra)
    && Located(data, at + 46 + n + |f.extra|, u.comment)
  }

  lemma RecordSplit(data: seq<byte>, at: nat, r: Record, u: Unread)
    requires RecordFits(r) && Sized(FieldsOf(r), u)
    ensures Located(data, at, Central(FieldsOf(r), u, r.disk, r.local32)) <==> RecordParts(data, at, r, u)
  {
    hide Located, HeadPart, SizesPart, LengthsPart, PlacePart;
    var f := FieldsOf(r);
    var a, b, c, d := HeadPart(CENTRAL_HEADER, u.madeBy + u.needed, f, u), SizesPart(f), LengthsPart(f),
      PlacePart(u, r.disk, r.local32);
    LocatedSplit(data, at, a + b + c + d + f.name + f.extra, u.comment);
    LocatedSplit(data, at, a + b + c + d + f.name, f.extra);
    LocatedSplit(data, at, a + b + c + d, f.name);
    LocatedSplit(data, at, a + b + c, d);
    LocatedSplit(data, at, a + b, c);
    LocatedSplit(data, at, a, b);
  }

  lemma RecordReads(data: seq<byte>, at: nat, end: nat, r: Record, u: Unread)
    requires RecordStands(data, at, r, u) && r.next <= end
    ensures ParseRecord(data, at, end) == Some(r)
  {
    hide Located, HeadPart, SizesPart, LengthsPart, PlacePart, Read;
    var f := FieldsOf(r);
    RecordSplit(data, at, r, u);
    HeadExact(data, at, CENTRAL_HEADER, u.madeBy + u.needed, f, u);
    SizesExact(data, at + 16, f);
    LengthsExact(data, at + 28, f);
    PlaceExact(data, at + 32, u, r.disk, r.local32);
    LocatedIs(data, at + 46, f.name);
    LocatedIs(data, at + 46 + |f.name|, f.extra);
  }

  lemma LocatedIs(data: seq<byte>, at: nat, part: seq<byte>)
    ensures Located(data, at, part) <==> Has(data, at, |part|) && data[at..at + |part|] == part
  {
  }

  lemma RecordSound(data: seq<byte>, at: nat, end: nat, r: Record) returns (u: Unread)
    requires end <= |data| && ParseRecord(data, at, end) == Some(r)
    ensures RecordStands(data, at, r, u) && r.next <= end
  {
    hide Located, HeadPart, SizesPart, LengthsPart, PlacePart, Read;
    var n, x, c := Read16(data, at + 28), Read16(data, at + 30), Read16(data, at + 32);
    RecordBounds(data, at, end);
    u := Unread(data[at + 4..at + 6], data[at + 6..at + 8], data[at + 12..at + 16], data[at + 36..at + 42],
                data[at + 46 + n + x..at + 46 + n + x + c]);
    assert u.madeBy + u.needed == data[at + 4..at + 8];
    SliceStands(data, at + 4, 4);
    SliceStands(data, at + 12, 4);
    SliceStands(data, at + 36, 6);
    SliceStands(data, at + 46 + n + x, c);
    var f := FieldsOf(r);
    HeadExact(data, at, CENTRAL_HEADER, u.madeBy + u.needed, f, u);
    SizesExact(data, at + 16, f);
    LengthsExact(data, at + 28, f);
    PlaceExact(data, at + 32, u, r.disk, r.local32);
    LocatedIs(data, at + 46, f.name);
    LocatedIs(data, at + 46 + |f.name|, f.extra);
    RecordSplit(data, at, r, u);
  }

  lemma RecordBounds(data: seq<byte>, at: nat, end: nat)
    requires ParseRecord(data, at, end).Some?
    ensures RecordFits(ParseRecord(data, at, end).value)
    ensures Read16(data, at + 28) < 0x1_0000 && Read16(data, at + 30) < 0x1_0000 && Read16(data, at + 32) < 0x1_0000
  {
    hide Read;
    ReadBounds(data, at + 8, 2);
    ReadBounds(data, at + 10, 2);
    ReadBounds(data, at + 16, 4);
    ReadBounds(data, at + 20, 4);
    ReadBounds(data, at + 24, 4);
    ReadBounds(data, at + 28, 2);
    ReadBounds(data, at + 30, 2);
    ReadBounds(data, at + 32, 2);
    ReadBounds(data, at + 34, 2);
    ReadBounds(data, at + 42, 4);
  }

  lemma ReadBounds(data: seq<byte>, at: nat, width: nat)
    requires Has(data, at, width) && (width == 2 || width == 4)
    ensures Fits(Read(data, at, width), width)
  {
    LittleEndianBound(data[at..at + width]);
    FitsPower(Read(data, at, width), width);
  }

  /** A record is parsed if and only if its bytes stand there, whatever the fields say that are not looked at. */
  lemma RecordExact(data: seq<byte>, at: nat, end: nat, r: Record)
    requires end <= |data|
    ensures ParseRecord(data, at, end) == Some(r) <==> r.next <= end && exists u :: RecordStands(data, at, r, u)
  {
    hide ParseRecord, RecordStands;
    if ParseRecord(data, at, end) == Some(r) { var u := RecordSound(data, at, end, r); }
    if r.next <= end && exists u :: RecordStands(data, at, r, u) {
      var u :| RecordStands(data, at, r, u);
      RecordReads(data, at, end, r, u);
    }
  }

  // ---- local headers -------------------------------------------------------------------------

  predicate LocalStands(data: seq<byte>, at: nat, f: Fields, u: Unread) { Sized(f, u) && Located(data, at, Local(f, u)) }

  predicate LocalParts(data: seq<byte>, at: nat, f: Fields, u: Unread) {
    && Located(data, at, HeadPart(LOCAL_HEADER, u.needed, f, u)) && Located(data, at + 14, SizesPart(f))
    && Located(data, at + 26, LengthsPart(f)) && Located(data, at + 30, f.name)
    && Located(data, at + 30 + |f.name|, f.extra)
  }

  lemma LocalSplit(data: seq<byte>, at: nat, f: Fields, u: Unread)
    requires Sized(f, u)
    ensures Located(data, at, Local(f, u)) <==> LocalParts(data, at, f, u)
  {
    hide Located, HeadPart, SizesPart, LengthsPart;
    var a, b, c := HeadPart(LOCAL_HEADER, u.needed, f, u), SizesPart(f), LengthsPart(f);
    LocatedSplit(data, at, a + b + c + f.name, f.extra);
    LocatedSplit(data, at, a + b + c, f.name);
    LocatedSplit(data, at, a + b, c);
    LocatedSplit(data, at, a, b);
  }

  /** The local header repeats the record, and without a data descriptor also checksum and sizes. */
  predicate HeaderAgrees(r: Record, v: Values, f: Fields) {
    && f.flags == r.flags && f.kind == r.kind && f.name == r.name
    && (HasDescriptor(r) ||
          var w := FromExtra(f.extra, 0, Values(f.size, f.packed, 0, 0, true));
          w.valid && f.crc == r.crc && w.compressed == v.compressed && w.uncompressed == v.uncompressed)
  }

  predicate PayloadBehind(data: seq<byte>, r: Record, v: Values, p: nat, f: Fields, u: Unread) {
    LocalStands(data, v.localOffset, f, u) && p == v.localOffset + |Local(f, u)| && HeaderAgrees(r, v, f)
  }

  lemma LocalExact(data: seq<byte>, at: nat, f: Fields, u: Unread)
    requires Sized(f, u)
    ensures Located(data, at, Local(f, u)) <==>
      && Has(data, at, 30 + |f.name| + |f.extra|) && Read32(data, at) == LOCAL_HEADER
      && Read16(data, at + 6) == f.flags && Read16(data, at + 8) == f.kind && Read32(data, at + 14) == f.crc
      && Read32(data, at + 18) == f.packed && Read32(data, at + 22) == f.size
      && Read16(data, at + 26) == |f.name| && Read16(data, at + 28) == |f.extra|
      && data[at + 30..at + 30 + |f.name|] == f.name
      && data[at + 30 + |f.name|..at + 30 + |f.name| + |f.extra|] == f.extra
      && Located(data, at + 4, u.needed) && Located(data, at + 10, u.stamp)
  {
    hide Located, HeadPart, SizesPart, LengthsPart, Read;
    LocalSplit(data, at, f, u);
    HeadExact(data, at, LOCAL_HEADER, u.needed, f, u);
    SizesExact(data, at + 14, f);
    LengthsExact(data, at + 26, f);
    LocatedIs(data, at + 30, f.name);
    LocatedIs(data, at + 30 + |f.name|, f.extra);
  }

  lemma PayloadReads(data: seq<byte>, d: Directory, r: Record, v: Values, p: nat, f: Fields, u: Unread)
    requires PayloadBehind(data, r, v, p, f, u) && Has(data, p, v.compressed) && p + v.compressed <= d.offset
    ensures Payload(data, d, r, v) == Some(p)
  {
    hide Located, Read, Local, FromExtra, HasDescriptor;
    LocalExact(data, v.localOffset, f, u);
  }

  lemma PayloadSound(data: seq<byte>, d: Directory, r: Record, v: Values, p: nat) returns (f: Fields, u: Unread)
    requires Payload(data, d, r, v) == Some(p) && 0 < |r.name| < 0x1_0000
    ensures PayloadBehind(data, r, v, p, f, u)
  {
    hide Located, Read, Local, FromExtra, HasDescriptor;
    var at := v.localOffset;
    var n, x := Read16(data, at + 26), Read16(data, at + 28);
    LocalBounds(data, at);
    f := Fields(Read16(data, at + 6), Read16(data, at + 8), Read32(data, at + 14), Read32(data, at + 18),
                Read32(data, at + 22), data[at + 30..at + 30 + n], data[at + 30 + n..at + 30 + n + x]);
    u := Unread([0, 0], data[at + 4..at + 6], data[at + 10..at + 14], [0, 0, 0, 0, 0, 0], []);
    SliceStands(data, at + 4, 2);
    SliceStands(data, at + 10, 4);
    LocalExact(data, at, f, u);
  }

  lemma LocalBounds(data: seq<byte>, at: nat)
    requires Has(data, at, 30)
    ensures Read16(data, at + 6) < 0x1_0000 && Read16(data, at + 8) < 0x1_0000 && Read32(data, at + 14) < 0x1_0000_0000
    ensures Read32(data, at + 18) < 0x1_0000_0000 && Read32(data, at + 22) < 0x1_0000_0000
    ensures Read16(data, at + 26) < 0x1_0000 && Read16(data, at + 28) < 0x1_0000
  {
    hide Read;
    ReadBounds(data, at + 6, 2);
    ReadBounds(data, at + 8, 2);
    ReadBounds(data, at + 14, 4);
    ReadBounds(data, at + 18, 4);
    ReadBounds(data, at + 22, 4);
    ReadBounds(data, at + 26, 2);
    ReadBounds(data, at + 28, 2);
  }

  /** A payload is accepted if and only if it stands behind a local header that agrees with its record. */
  lemma PayloadExact(data: seq<byte>, d: Directory, r: Record, v: Values, p: nat)
    requires 0 < |r.name| < 0x1_0000
    ensures Payload(data, d, r, v) == Some(p) <==>
      && Has(data, p, v.compressed) && p + v.compressed <= d.offset
      && exists f, u :: PayloadBehind(data, r, v, p, f, u)
  {
    hide Payload, PayloadBehind;
    if Payload(data, d, r, v) == Some(p) { var f, u := PayloadSound(data, d, r, v, p); }
    if Has(data, p, v.compressed) && p + v.compressed <= d.offset && exists f, u :: PayloadBehind(data, r, v, p, f, u) {
      var f, u :| PayloadBehind(data, r, v, p, f, u);
      PayloadReads(data, d, r, v, p, f, u);
    }
  }

  // ---- the end of the directory --------------------------------------------------------------

  lemma EndStartReads(data: seq<byte>, at: nat, count: u16)
    requires Located(data, at, EndStart(count))
    ensures Has(data, at, 12) && Read32(data, at) == END_OF_DIRECTORY && Read16(data, at + 4) == 0
    ensures Read16(data, at + 6) == 0 && Read16(data, at + 8) == count && Read16(data, at + 10) == count
  {
    hide LittleEndian, Located, Read;
    var a, b, c := LittleEndian(END_OF_DIRECTORY, 4), LittleEndian(0, 2), LittleEndian(count, 2);
    LocatedSplit(data, at, a + b + b + c, c);
    LocatedSplit(data, at, a + b + b, c);
    LocatedSplit(data, at, a + b, b);
    LocatedSplit(data, at, a, b);
    ReadExact(data, at, END_OF_DIRECTORY, 4);
    ReadExact(data, at + 4, 0, 2);
    ReadExact(data, at + 6, 0, 2);
    ReadExact(data, at + 8, count, 2);
    ReadExact(data, at + 10, count, 2);
    HasAll(data, at, 12, c);
  }

  lemma EndRestReads(data: seq<byte>, at: nat, size: u32, offset: u32)
    requires Located(data, at, EndRest(size, offset))
    ensures Has(data, at, 10) && Read32(data, at) == size && Read32(data, at + 4) == offset && Read16(data, at + 8) == 0
  {
    hide LittleEndian, Located, Read;
    var a, b, c := LittleEndian(size, 4), LittleEndian(offset, 4), LittleEndian(0, 2);
    LocatedSplit(data, at, a + b, c);
    LocatedSplit(data, at, a, b);
    ReadExact(data, at, size, 4);
    ReadExact(data, at + 4, offset, 4);
    ReadExact(data, at + 8, 0, 2);
    HasAll(data, at, 10, c);
  }

  /** The short end record closes the data and gives the directory written into it. */
  lemma ShortDirectoryReads(front: seq<byte>, d: Directory)
    requires d.entries < 0xffff && d.size < NARROW32 && d.offset < NARROW32
    ensures var data := front + (EndStart(d.entries) + EndRest(d.size, d.offset));
      && |data| == |front| + 22 && EndOfDirectory(data) == Some(|front|) && LocateDirectory(data, |front|) == Some(d)
  {
    hide EndStart, EndRest, Located, Read;
    var close, at := EndStart(d.entries) + EndRest(d.size, d.offset), |front|;
    var data := front + close;
    Whole(data);
    LocatedSplit(data, 0, front, close);
    LocatedSplit(data, at, EndStart(d.entries), EndRest(d.size, d.offset));
    EndStartReads(data, at, d.entries);
    EndRestReads(data, at + 12, d.size, d.offset);
    assert EndAt(data, at);
  }
}
