/**
 What the parsers of directory ends, ZIP64 extra fields and data descriptors accept, exactly: the bytes that have to
 stand there, and nothing else.
 */
module ZipExact {
  import opened Bytes
  import opened ZipFormat
  import opened ZipRecords
  import opened ZipWide

  // ---- data descriptors ----------------------------------------------------------------------

  lemma DescriptorLocated(data: seq<byte>, at: nat, crc: nat, packed: nat, size: nat, wide: bool)
    ensures var w := SizeWidth(wide);
      (Located(data, at, Descriptor(crc, packed, size, wide)) && Fits(crc, 4) && Fits(packed, w) && Fits(size, w)) <==>
        && Has(data, at, 4 + 2 * w) && Read32(data, at) == crc && Read(data, at + 4, w) == packed
        && Read(data, at + 4 + w, w) == size
  {
    hide LittleEndian, Located, Read, Fits;
    var w := SizeWidth(wide);
    var a, b, c := LittleEndian(crc, 4), LittleEndian(packed, w), LittleEndian(size, w);
    LocatedSplit(data, at, a + b, c);
    LocatedSplit(data, at, a, b);
    ReadExact(data, at, crc, 4);
    ReadExact(data, at + 4, packed, w);
    ReadExact(data, at + 4 + w, size, w);
  }

  /**
   A descriptor is accepted if and only if it stands there with its signature, or without it and its checksum is not
   taken for the signature.
   */
  lemma DescriptorExact(data: seq<byte>, d: Directory, r: Record, v: Values, end: nat)
    ensures DescriptorAgrees(data, d, r, v, end) <==>
      || DescriptorStands(data, d, r, v, end, true)
      || (DescriptorStands(data, d, r, v, end, false)
          && (r.crc != DATA_DESCRIPTOR || Echoes(data, d, r, v, After(r, end, false))))
  {
    hide LittleEndian, Located, Read, Descriptor, Echoes, Fits;
    if DescriptorStands(data, d, r, v, end, true) { SignedDescriptorReads(data, d, r, v, end); }
    if DescriptorStands(data, d, r, v, end, false) { UnsignedDescriptorExact(data, d, r, v, end); }
    if DescriptorAgrees(data, d, r, v, end) { DescriptorSound(data, d, r, v, end); }
  }

  lemma DescriptorSound(data: seq<byte>, d: Directory, r: Record, v: Values, end: nat)
    requires DescriptorAgrees(data, d, r, v, end)
    ensures DescriptorStands(data, d, r, v, end, true)
      || (DescriptorStands(data, d, r, v, end, false) && r.crc != DATA_DESCRIPTOR)
  {
    hide LittleEndian, Located, Read, Descriptor, Fits;
    var wide := WideDescriptor(r);
    var plain := Descriptor(r.crc, v.compressed, v.uncompressed, wide);
    if Has(data, end, 4) && Read32(data, end) == DATA_DESCRIPTOR {
      DescriptorLocated(data, end + 4, r.crc, v.compressed, v.uncompressed, wide);
      ReadExact(data, end, DATA_DESCRIPTOR, 4);
      LocatedSplit(data, end, Signature(true), plain);
    } else {
      DescriptorLocated(data, end, r.crc, v.compressed, v.uncompressed, wide);
      assert Signature(false) + plain == plain;
    }
  }

  // ---- the end of the directory --------------------------------------------------------------

  /** An end record closes the data if it is followed by exactly the comment whose length it ends in. */
  lemma EndAtExact(data: seq<byte>, at: nat)
    ensures EndAt(data, at) <==>
      exists numbers, comment :: |numbers| == 16 && EndCloses(data, at, numbers, comment)
  {
    hide EndCloses, EndAt;
    if EndAt(data, at) { EndSound(data, at); }
    forall numbers, comment | |numbers| == 16 && EndCloses(data, at, numbers, comment)
      ensures EndAt(data, at)
    {
      EndComplete(data, at, numbers, comment);
    }
  }

  predicate EndCloses(data: seq<byte>, at: nat, numbers: seq<byte>, comment: seq<byte>) {
    && |comment| < 0x1_0000 && at <= |data|
    && data[at..] == LittleEndian(END_OF_DIRECTORY, 4) + numbers + LittleEndian(|comment|, 2) + comment
  }

  lemma EndSound(data: seq<byte>, at: nat)
    requires EndAt(data, at)
    ensures at + 22 <= |data| && EndCloses(data, at, data[at + 4..at + 20], data[at + 22..])
  {
    hide LittleEndian, Read;
    ReadBounds(data, at + 20, 2);
    ReadExact(data, at, END_OF_DIRECTORY, 4);
    ReadExact(data, at + 20, |data| - (at + 22), 2);
    assert data[at..] == data[at..at + 4] + data[at + 4..at + 20] + data[at + 20..at + 22] + data[at + 22..];
  }

  lemma EndComplete(data: seq<byte>, at: nat, numbers: seq<byte>, comment: seq<byte>)
    requires |numbers| == 16 && EndCloses(data, at, numbers, comment)
    ensures EndAt(data, at)
  {
    hide LittleEndian, Read;
    var a, b := LittleEndian(END_OF_DIRECTORY, 4), LittleEndian(|comment|, 2);
    assert data[at..at + |data[at..]|] == data[at..];
    assert Located(data, at, a + numbers + b + comment);
    hide Located;
    LocatedSplit(data, at, a + numbers + b, comment);
    LocatedSplit(data, at, a + numbers, b);
    LocatedSplit(data, at, a, numbers);
    SmallFit();
    ReadExact(data, at, END_OF_DIRECTORY, 4);
    ReadExact(data, at + 20, |comment|, 2);
  }

  /** The numbers of an end record that spans one disk. */
  function EndNumbers(count: nat, size: nat, offset: nat): seq<byte> {
    LittleEndian(0, 2) + LittleEndian(0, 2) + LittleEndian(count, 2) + LittleEndian(count, 2) + LittleEndian(size, 4)
    + LittleEndian(offset, 4)
  }

  lemma EndNumbersExact(data: seq<byte>, at: nat, count: u16, size: u32, offset: u32)
    ensures Located(data, at, EndNumbers(count, size, offset)) <==>
      && Has(data, at, 16) && Read16(data, at) == 0 && Read16(data, at + 2) == 0 && Read16(data, at + 4) == count
      && Read16(data, at + 6) == count && Read32(data, at + 8) == size && Read32(data, at + 12) == offset
  {
    hide LittleEndian, Located, Read;
    var z, c, s, o := LittleEndian(0, 2), LittleEndian(count, 2), LittleEndian(size, 4), LittleEndian(offset, 4);
    LocatedSplit(data, at, z + z + c + c + s, o);
    LocatedSplit(data, at, z + z + c + c, s);
    LocatedSplit(data, at, z + z + c, c);
    LocatedSplit(data, at, z + z, c);
    LocatedSplit(data, at, z, z);
    ReadExact(data, at, 0, 2);
    ReadExact(data, at + 2, 0, 2);
    ReadExact(data, at + 4, count, 2);
    ReadExact(data, at + 6, count, 2);
    ReadExact(data, at + 8, size, 4);
    ReadExact(data, at + 12, offset, 4);
  }

  /** A ZIP64 end record of any versions, with an extension of any kind. */
  function WideRecord(d: Directory, versions: seq<byte>, extension: seq<byte>): seq<byte> {
    LittleEndian(ZIP64_END, 4) + LittleEndian(44 + |extension|, 8) + versions + LittleEndian(0, 4) + LittleEndian(0, 4)
    + WideEndRest(d) + extension
  }

  /** It stands right before its locator, which stands right before the short end record. */
  predicate WideStands(data: seq<byte>, end: nat, d: Directory, record: nat, versions: seq<byte>, extension: seq<byte>) {
    && |versions| == 4 && Fits(record, 8) && Fits(44 + |extension|, 8)
    && Fits(d.entries, 8) && Fits(d.size, 8) && Fits(d.offset, 8)
    && end == record + 56 + |extension| + 20
    && Located(data, record, WideRecord(d, versions, extension)) && Located(data, end - 20, Locator(record))
  }

  lemma LocatorExact(data: seq<byte>, at: nat, record: nat)
    ensures (Located(data, at, Locator(record)) && Fits(record, 8)) <==>
      && Has(data, at, 20) && Read32(data, at) == ZIP64_LOCATOR && Read32(data, at + 4) == 0
      && Read64(data, at + 8) == record && Read32(data, at + 16) == 1
  {
    hide LittleEndian, Located, Read, Fits;
    var a, b, c, d := LittleEndian(ZIP64_LOCATOR, 4), LittleEndian(0, 4), LittleEndian(record, 8), LittleEndian(1, 4);
    LocatedSplit(data, at, a + b + c, d);
    LocatedSplit(data, at, a + b, c);
    LocatedSplit(data, at, a, b);
    SmallFit();
    ReadExact(data, at, ZIP64_LOCATOR, 4);
    ReadExact(data, at + 4, 0, 4);
    ReadExact(data, at + 8, record, 8);
    ReadExact(data, at + 16, 1, 4);
  }

  lemma SmallFit()
    ensures Fits(ZIP64_LOCATOR, 4) && Fits(ZIP64_END, 4) && Fits(END_OF_DIRECTORY, 4) && Fits(0, 4) && Fits(1, 4)
  {
  }

  lemma WideRestExact(data: seq<byte>, at: nat, d: Directory)
    ensures (Located(data, at, WideEndRest(d)) && Fits(d.entries, 8) && Fits(d.size, 8) && Fits(d.offset, 8)) <==>
      && Has(data, at, 32) && Read64(data, at) == d.entries && Read64(data, at + 8) == d.entries
      && Read64(data, at + 16) == d.size && Read64(data, at + 24) == d.offset
  {
    hide LittleEndian, Located, Read, Fits;
    var a, b, c := LittleEndian(d.entries, 8), LittleEndian(d.size, 8), LittleEndian(d.offset, 8);
    LocatedSplit(data, at, a + a + b, c);
    LocatedSplit(data, at, a + a, b);
    LocatedSplit(data, at, a, a);
    ReadExact(data, at, d.entries, 8);
    ReadExact(data, at + 8, d.entries, 8);
    ReadExact(data, at + 16, d.size, 8);
    ReadExact(data, at + 24, d.offset, 8);
  }

  lemma WideRecordExact(data: seq<byte>, at: nat, d: Directory, versions: seq<byte>, extension: seq<byte>)
    requires |versions| == 4
    ensures (Located(data, at, WideRecord(d, versions, extension)) && Fits(44 + |extension|, 8)
             && Fits(d.entries, 8) && Fits(d.size, 8) && Fits(d.offset, 8)) <==>
      && Has(data, at, 56 + |extension|) && Read32(data, at) == ZIP64_END && Read64(data, at + 4) == 44 + |extension|
      && data[at + 12..at + 16] == versions && Read32(data, at + 16) == 0 && Read32(data, at + 20) == 0
      && Read64(data, at + 24) == d.entries && Read64(data, at + 32) == d.entries && Read64(data, at + 40) == d.size
      && Read64(data, at + 48) == d.offset && data[at + 56..at + 56 + |extension|] == extension
  {
    hide LittleEndian, Located, Read, Fits, WideEndRest;
    var a, b, z := LittleEndian(ZIP64_END, 4), LittleEndian(44 + |extension|, 8), LittleEndian(0, 4);
    var rest := WideEndRest(d);
    LocatedSplit(data, at, a + b + versions + z + z + rest, extension);
    LocatedSplit(data, at, a + b + versions + z + z, rest);
    LocatedSplit(data, at, a + b + versions + z, z);
    LocatedSplit(data, at, a + b + versions, z);
    LocatedSplit(data, at, a + b, versions);
    LocatedSplit(data, at, a, b);
    SmallFit();
    ReadExact(data, at, ZIP64_END, 4);
    ReadExact(data, at + 4, 44 + |extension|, 8);
    ReadExact(data, at + 16, 0, 4);
    ReadExact(data, at + 20, 0, 4);
    WideRestExact(data, at + 24, d);
    LocatedIs(data, at + 12, versions);
    LocatedIs(data, at + 56, extension);
  }

  lemma Zip64Sound(data: seq<byte>, end: nat, d: Directory) returns (record: nat, versions: seq<byte>, extension: seq<byte>)
    requires Has(data, end, 22) && Zip64Directory(data, end) == Some(d)
    ensures WideStands(data, end, d, record, versions, extension)
  {
    hide LittleEndian, Located, Read, WideRecord, Locator;
    record := Read64(data, end - 12);
    versions := data[record + 12..record + 16];
    extension := data[record + 56..end - 20];
    assert |extension| == end - 20 - (record + 56);
    LocatorExact(data, end - 20, record);
    WideRecordExact(data, record, d, versions, extension);
  }

  lemma Zip64Complete(data: seq<byte>, end: nat, d: Directory, record: nat, versions: seq<byte>, extension: seq<byte>)
    requires Has(data, end, 22) && WideStands(data, end, d, record, versions, extension)
    ensures Zip64Directory(data, end) == Some(d)
  {
    hide LittleEndian, Located, Read, WideRecord, Locator;
    LocatorExact(data, end - 20, record);
    WideRecordExact(data, record, d, versions, extension);
  }

  /** The 64-bit directory is taken if and only if its record and its locator stand before the short end record. */
  lemma Zip64Exact(data: seq<byte>, end: nat, d: Directory)
    requires Has(data, end, 22)
    ensures Zip64Directory(data, end) == Some(d) <==>
      exists record, versions, extension :: WideStands(data, end, d, record, versions, extension)
  {
    hide Zip64Directory, WideStands;
    if Zip64Directory(data, end) == Some(d) { var record, versions, extension := Zip64Sound(data, end, d); }
    if exists record, versions, extension :: WideStands(data, end, d, record, versions, extension) {
      var record, versions, extension :| WideStands(data, end, d, record, versions, extension);
      Zip64Complete(data, end, d, record, versions, extension);
    }
  }

  predicate AllOnes(count: nat, size: nat, offset: nat) { count == 0xffff || size == 0xffff_ffff || offset == 0xffff_ffff }

  ghost predicate DirectoryStands(data: seq<byte>, end: nat, d: Directory, count: u16, size: u32, offset: u32) {
    && Located(data, end + 4, EndNumbers(count, size, offset))
    && if AllOnes(count, size, offset)
       then exists record, versions, extension :: WideStands(data, end, d, record, versions, extension)
       else d == Directory(count, offset, size)
  }

  /**
   A directory is located if and only if the end record names one on a single disk; its numbers are the short ones
   unless one of them is all ones, and then those of the ZIP64 record.
   */
  lemma DirectoryExact(data: seq<byte>, end: nat, d: Directory)
    requires Has(data, end, 22)
    ensures LocateDirectory(data, end) == Some(d) <==>
      exists count, size, offset :: DirectoryStands(data, end, d, count, size, offset)
  {
    hide Located, Read, EndNumbers, Zip64Directory, WideStands;
    var c, s, o := Read16(data, end + 10), Read32(data, end + 12), Read32(data, end + 16);
    ReadBounds(data, end + 10, 2);
    ReadBounds(data, end + 12, 4);
    ReadBounds(data, end + 16, 4);
    EndNumbersExact(data, end + 4, c, s, o);
    Zip64Exact(data, end, d);
    if LocateDirectory(data, end) == Some(d) { assert DirectoryStands(data, end, d, c, s, o); }
    forall count, size, offset | DirectoryStands(data, end, d, count, size, offset)
      ensures count == c && size == s && offset == o && LocateDirectory(data, end) == Some(d)
    {
      EndNumbersExact(data, end + 4, count, size, offset);
    }
  }

  // ---- the ZIP64 extra field -----------------------------------------------------------------

  predicate AsksWide(narrow: Values) {
    || narrow.uncompressed == 0xffff_ffff || narrow.compressed == 0xffff_ffff || narrow.localOffset == 0xffff_ffff
    || narrow.disk == 0xffff
  }

  function WideOf(narrow: nat, value: nat): Choice { Choice(value, narrow == 0xffff_ffff) }

  predicate Kept(narrow: nat, value: nat) { if narrow == 0xffff_ffff then Fits(value, 8) else value == narrow }

  /** The values that are all ones are replaced, the others stay. */
  predicate Replaces(narrow: Values, v: Values) {
    && v.valid && Kept(narrow.uncompressed, v.uncompressed) && Kept(narrow.compressed, v.compressed)
    && Kept(narrow.localOffset, v.localOffset) && (if narrow.disk == 0xffff then Fits(v.disk, 4) else v.disk == narrow.disk)
  }

  /** The bytes of the replacements, in the fixed order. */
  function Replacements(narrow: Values, v: Values): seq<byte> {
    WidePart(WideOf(narrow.uncompressed, v.uncompressed)) + WidePart(WideOf(narrow.compressed, v.compressed))
    + WidePart(WideOf(narrow.localOffset, v.localOffset)) + if narrow.disk == 0xffff then LittleEndian(v.disk, 4) else []
  }

  lemma WidenExact(extra: seq<byte>, field: nat, end: nat, narrow: nat, value: nat)
    requires field <= end <= |extra|
    ensures var part, (read, next) := WidePart(WideOf(narrow, value)), Widen(extra, field, end, narrow);
      && (read == Some(value) <==> Kept(narrow, value) && Located(extra, field, part) && field + |part| <= end)
      && (read == Some(value) ==> next == field + |part|) && (read.Some? ==> next <= end)
  {
    hide LittleEndian, Read, Fits;
    ReadExact(extra, field, value, 8);
  }

  /** What a ZIP64 field gives is valid if and only if the replacements stand at its front. */
  lemma WideValuesExact(extra: seq<byte>, field: nat, end: nat, narrow: Values, v: Values)
    requires field <= end <= |extra|
    ensures (WideValues(extra, field, end, narrow) == v && v.valid) <==>
      Replaces(narrow, v) && Located(extra, field, Replacements(narrow, v)) && field + |Replacements(narrow, v)| <= end
  {
    hide LittleEndian, Located, Read, Fits, Widen, Kept, WidePart;
    var p, q, r := WidePart(WideOf(narrow.uncompressed, v.uncompressed)), WidePart(WideOf(narrow.compressed, v.compressed)),
      WidePart(WideOf(narrow.localOffset, v.localOffset));
    var s := if narrow.disk == 0xffff then LittleEndian(v.disk, 4) else [];
    LocatedSplit(extra, field, p + q + r, s);
    LocatedSplit(extra, field, p + q, r);
    LocatedSplit(extra, field, p, q);
    WidenExact(extra, field, end, narrow.uncompressed, v.uncompressed);
    if Widen(extra, field, end, narrow.uncompressed).0 == Some(v.uncompressed) {
      var f2 := field + |p|;
      WidenExact(extra, f2, end, narrow.compressed, v.compressed);
      if Widen(extra, f2, end, narrow.compressed).0 == Some(v.compressed) {
        var f3 := f2 + |q|;
        WidenExact(extra, f3, end, narrow.localOffset, v.localOffset);
        if Widen(extra, f3, end, narrow.localOffset).0 == Some(v.localOffset) {
          DiskExact(extra, f3 + |r|, end, narrow.disk, v.disk);
        }
      }
    }
  }

  lemma DiskExact(extra: seq<byte>, field: nat, end: nat, narrow: nat, disk: nat)
    requires field <= end <= |extra|
    ensures var part := if narrow == 0xffff then LittleEndian(disk, 4) else [];
      ((narrow != 0xffff || (Has(extra, field, 4) && field + 4 <= end))
       && disk == if narrow == 0xffff && Has(extra, field, 4) then Read32(extra, field) else narrow) <==>
      (if narrow == 0xffff then Fits(disk, 4) else disk == narrow) && Located(extra, field, part) && field + |part| <= end
  {
    hide LittleEndian, Read, Fits;
    ReadExact(extra, field, disk, 4);
  }

  /** Behind the whole fields `others` fewer than four bytes are left, and nothing has to be replaced. */
  predicate EndsPlain(extra: seq<byte>, at: nat, others: seq<Field>, narrow: Values, v: Values) {
    && Others(others) && Located(extra, at, WireAll(others)) && |extra| < at + |WireAll(others)| + 4
    && !AsksWide(narrow) && v == narrow.(valid := true)
  }

  /** Behind the fields `others` stands a ZIP64 field that begins with the replacements. */
  predicate EndsWide(extra: seq<byte>, at: nat, others: seq<Field>, body: seq<byte>, narrow: Values, v: Values) {
    && Others(others) && |body| < 0x1_0000 && Located(extra, at, WireAll(others) + Wire(Field(1, body)))
    && Replaces(narrow, v) && Replacements(narrow, v) <= body
  }

  lemma FieldExact(extra: seq<byte>, at: nat, f: Field)
    requires |f.body| < 0x1_0000
    ensures Located(extra, at, Wire(f)) <==>
      && Has(extra, at, 4) && Read16(extra, at) == f.id && Read16(extra, at + 2) == |f.body|
      && Located(extra, at + 4, f.body)
  {
    hide LittleEndian, Located, Read;
    var a, b := LittleEndian(f.id, 2), LittleEndian(|f.body|, 2);
    LocatedSplit(extra, at, a + b, f.body);
    LocatedSplit(extra, at, a, b);
    ReadExact(extra, at, f.id, 2);
    ReadExact(extra, at + 2, |f.body|, 2);
  }

  /** The field that starts at `at`, if it fits. */
  lemma FieldAt(extra: seq<byte>, at: nat) returns (f: Field)
    requires Has(extra, at, 4) && Has(extra, at + 4, Read16(extra, at + 2))
    ensures |f.body| == Read16(extra, at + 2) < 0x1_0000 && f.id == Read16(extra, at) && Located(extra, at, Wire(f))
    ensures f.body == extra[at + 4..at + 4 + |f.body|]
  {
    hide Read, Wire;
    ReadBounds(extra, at, 2);
    ReadBounds(extra, at + 2, 2);
    f := Field(Read16(extra, at), extra[at + 4..at + 4 + Read16(extra, at + 2)]);
    FieldExact(extra, at, f);
  }

  lemma PrefixLocated(extra: seq<byte>, at: nat, body: seq<byte>, part: seq<byte>)
    requires Located(extra, at, body)
    ensures part <= body <==> Located(extra, at, part) && at + |part| <= at + |body|
  {
    if |part| <= |body| { assert extra[at..at + |part|] == body[..|part|]; }
  }

  lemma {:induction false} ExtraSound(extra: seq<byte>, at: nat, narrow: Values)
    returns (others: seq<Field>, body: Option<seq<byte>>)
    requires at <= |extra| && FromExtra(extra, at, narrow).valid
    ensures var v := FromExtra(extra, at, narrow);
      match body
      case None => EndsPlain(extra, at, others, narrow, v)
      case Some(b) => EndsWide(extra, at, others, b, narrow, v)
    decreases |extra| - at
  {
    hide Wire, WideValues, Replaces, Replacements, Read, NeedsWide, AsksWide;
    others, body := [], None;
    if at + 4 <= |extra| {
      var f := FieldAt(extra, at);
      var next := at + 4 + |f.body|;
      if f.id == 1 {
        body := Some(f.body);
        assert [] + Wire(f) == Wire(f);
        WideValuesExact(extra, at + 4, next, narrow, FromExtra(extra, at, narrow));
        PrefixLocated(extra, at + 4, f.body, Replacements(narrow, FromExtra(extra, at, narrow)));
      } else {
        var more;
        more, body := ExtraSound(extra, next, narrow);
        others := [f] + more;
        OneMoreField(extra, at, f, more, body, narrow, FromExtra(extra, at, narrow));
      }
    } else {
      NeedsWideExact(narrow);
    }
  }

  lemma NeedsWideExact(narrow: Values)
    ensures NeedsWide(narrow) <==> AsksWide(narrow)
  {
  }

  lemma OneMoreField(extra: seq<byte>, at: nat, f: Field, more: seq<Field>, body: Option<seq<byte>>, narrow: Values, v: Values)
    requires f.id != 1 && |f.body| < 0x1_0000 && Located(extra, at, Wire(f))
    requires match body
      case None => EndsPlain(extra, at + |Wire(f)|, more, narrow, v)
      case Some(b) => EndsWide(extra, at + |Wire(f)|, more, b, narrow, v)
    ensures match body
      case None => EndsPlain(extra, at, [f] + more, narrow, v)
      case Some(b) => EndsWide(extra, at, [f] + more, b, narrow, v)
  {
    hide Wire, Replaces, Replacements, Located, AsksWide;
    var fs := [f] + more;
    assert fs[1..] == more && WireAll(fs) == Wire(f) + WireAll(more);
    LocatedSplit(extra, at, Wire(f), WireAll(more));
    if body.Some? {
      var last := Wire(Field(1, body.value));
      LocatedSplit(extra, at, Wire(f), WireAll(more) + last);
      assert WireAll(fs) + last == Wire(f) + (WireAll(more) + last);
    }
  }

  /** And back: what lies behind the first field. */
  lemma OneFieldLess(extra: seq<byte>, at: nat, others: seq<Field>, body: Option<seq<byte>>, narrow: Values, v: Values)
    requires others != []
    requires match body
      case None => EndsPlain(extra, at, others, narrow, v)
      case Some(b) => EndsWide(extra, at, others, b, narrow, v)
    ensures others[0].id != 1 && |others[0].body| < 0x1_0000 && Located(extra, at, Wire(others[0]))
    ensures match body
      case None => EndsPlain(extra, at + |Wire(others[0])|, others[1..], narrow, v)
      case Some(b) => EndsWide(extra, at + |Wire(others[0])|, others[1..], b, narrow, v)
  {
    hide Wire, Replaces, Replacements, Located, AsksWide;
    var first, rest := Wire(others[0]), WireAll(others[1..]);
    LocatedSplit(extra, at, first, rest);
    if body.Some? {
      var last := Wire(Field(1, body.value));
      LocatedSplit(extra, at, first, rest + last);
      LocatedSplit(extra, at, WireAll(others), last);
      assert WireAll(others) + last == first + (rest + last);
    }
  }

  lemma {:induction false} ExtraComplete(extra: seq<byte>, at: nat, others: seq<Field>, body: Option<seq<byte>>, narrow: Values,
                                         v: Values)
    requires at <= |extra|
    requires match body
      case None => EndsPlain(extra, at, others, narrow, v)
      case Some(b) => EndsWide(extra, at, others, b, narrow, v)
    ensures FromExtra(extra, at, narrow) == v && v.valid
    decreases |others|
  {
    hide Wire, WideValues, Replaces, Replacements, Read, NeedsWide, AsksWide;
    if others != [] {
      OneFieldLess(extra, at, others, body, narrow, v);
      FieldExact(extra, at, others[0]);
      ExtraComplete(extra, at + |Wire(others[0])|, others[1..], body, narrow, v);
    } else if body.Some? {
      var f := Field(1, body.value);
      assert WireAll([]) + Wire(f) == Wire(f);
      FieldExact(extra, at, f);
      PrefixLocated(extra, at + 4, f.body, Replacements(narrow, v));
      WideValuesExact(extra, at + 4, at + 4 + |f.body|, narrow, v);
      assert v.valid by { ReplacesValid(narrow, v); }
    } else {
      NeedsWideExact(narrow);
    }
  }

  lemma ReplacesValid(narrow: Values, v: Values)
    requires Replaces(narrow, v)
    ensures v.valid
  {
  }

  /**
   The extra bytes give these values if and only if they begin with whole fields and either nothing has to be
   replaced and no ZIP64 field is among them, or the first ZIP64 field begins with the replacements.
   */
  lemma ExtraExact(extra: seq<byte>, narrow: Values, v: Values)
    ensures (FromExtra(extra, 0, narrow) == v && v.valid) <==>
      || (exists others :: EndsPlain(extra, 0, others, narrow, v))
      || (exists others, body :: EndsWide(extra, 0, others, body, narrow, v))
  {
    hide EndsPlain, EndsWide, FromExtra;
    if FromExtra(extra, 0, narrow) == v && v.valid { var others, body := ExtraSound(extra, 0, narrow); }
    if exists others :: EndsPlain(extra, 0, others, narrow, v) {
      var others :| EndsPlain(extra, 0, others, narrow, v);
      ExtraComplete(extra, 0, others, None, narrow, v);
    }
    if exists others, body :: EndsWide(extra, 0, others, body, narrow, v) {
      var others, body :| EndsWide(extra, 0, others, body, narrow, v);
      ExtraComplete(extra, 0, others, Some(body), narrow, v);
    }
  }
}
