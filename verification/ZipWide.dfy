/**
 The ZIP64 forms and the data descriptor (PKWARE APPNOTE, sections 4.3.9, 4.3.14, 4.3.15 and 4.5.3), written and
 read back.
 */
module ZipWide {
  import opened Bytes
  import opened ZipFormat
  import opened ZipRecords

  // ---- the ZIP64 extra field -----------------------------------------------------------------

  /** A value, and whether it is moved out of its 32-bit place. */
  datatype Choice = Choice(value: nat, wide: bool)

  predicate Stored(c: Choice) { if c.wide then Fits(c.value, 8) else c.value < NARROW32 }

  function NarrowOf(c: Choice): nat { if c.wide then NARROW32 else c.value }

  function WidePart(c: Choice): (b: seq<byte>)
    ensures |b| == if c.wide then 8 else 0
  {
    if c.wide then LittleEndian(c.value, 8) else []
  }

  /** The disk number is moved out of its 16-bit place into four bytes. */
  function DiskPart(disk: u32, wide: bool): seq<byte> { if wide then LittleEndian(disk, 4) else [] }

  function WideBody(u: Choice, c: Choice, l: Choice, disk: u32, wideDisk: bool): (b: seq<byte>)
    ensures |b| <= 28
  {
    WidePart(u) + WidePart(c) + WidePart(l) + DiskPart(disk, wideDisk)
  }

  /** Any extra field: its number, its length, its bytes. */
  datatype Field = Field(id: u16, body: seq<byte>)

  function Wire(f: Field): (b: seq<byte>)
    ensures |b| == 4 + |f.body|
  {
    LittleEndian(f.id, 2) + LittleEndian(|f.body|, 2) + f.body
  }

  function WireAll(fs: seq<Field>): seq<byte> {
    if fs == [] then [] else Wire(fs[0]) + WireAll(fs[1..])
  }

  /** Fields of other kinds than ZIP64. */
  predicate Others(fs: seq<Field>) { forall i | 0 <= i < |fs| :: fs[i].id != 1 && |fs[i].body| < 0x1_0000 }

  lemma FieldReads(extra: seq<byte>, at: nat, f: Field)
    requires Located(extra, at, Wire(f)) && |f.body| < 0x1_0000
    ensures at + 4 + |f.body| <= |extra| && Read16(extra, at) == f.id && Read16(extra, at + 2) == |f.body|
    ensures Located(extra, at + 4, f.body)
  {
    hide LittleEndian, Located, Read;
    var a, b := LittleEndian(f.id, 2), LittleEndian(|f.body|, 2);
    LocatedSplit(extra, at, a + b, f.body);
    LocatedSplit(extra, at, a, b);
    ReadExact(extra, at, f.id, 2);
    ReadExact(extra, at + 2, |f.body|, 2);
    LocatedEnd(extra, at + 4, f.body);
  }

  lemma WidenReads(extra: seq<byte>, field: nat, end: nat, c: Choice)
    requires Stored(c) && Located(extra, field, WidePart(c)) && field + |WidePart(c)| <= end
    ensures Widen(extra, field, end, NarrowOf(c)) == (Some(c.value), field + |WidePart(c)|)
  {
    hide LittleEndian, Located, Read;
    if c.wide { ReadExact(extra, field, c.value, 8); }
  }

  /** Every value that was moved out is read back, in the fixed order of the field. */
  lemma WideValuesRead(extra: seq<byte>, field: nat, u: Choice, c: Choice, l: Choice, disk: u32, wideDisk: bool)
    requires Stored(u) && Stored(c) && Stored(l) && (!wideDisk ==> disk < NARROW16)
    requires Located(extra, field, WideBody(u, c, l, disk, wideDisk))
    ensures var narrow := Values(NarrowOf(u), NarrowOf(c), NarrowOf(l), if wideDisk then NARROW16 else disk, true);
      WideValues(extra, field, field + |WideBody(u, c, l, disk, wideDisk)|, narrow)
        == Values(u.value, c.value, l.value, disk, true)
  {
    hide LittleEndian, Located, Read, Widen, NarrowOf, WidePart;
    var end := field + |WideBody(u, c, l, disk, wideDisk)|;
    LocatedSplit(extra, field, WidePart(u) + WidePart(c) + WidePart(l), DiskPart(disk, wideDisk));
    LocatedSplit(extra, field, WidePart(u) + WidePart(c), WidePart(l));
    LocatedSplit(extra, field, WidePart(u), WidePart(c));
    var f2 := field + |WidePart(u)|;
    var f3 := f2 + |WidePart(c)|;
    var f4 := f3 + |WidePart(l)|;
    WidenReads(extra, field, end, u);
    WidenReads(extra, f2, end, c);
    WidenReads(extra, f3, end, l);
    if wideDisk { ReadExact(extra, f4, disk, 4); }
  }

  /**
   Behind any fields of other kinds and before any further bytes, the ZIP64 field gives back exactly the
   values that were moved into it.
   */
  lemma {:induction false} WideRoundTrip(extra: seq<byte>, at: nat, others: seq<Field>, rest: seq<byte>,
                                         u: Choice, c: Choice, l: Choice, disk: u32, wideDisk: bool)
    requires Stored(u) && Stored(c) && Stored(l) && (!wideDisk ==> disk < NARROW16)
    requires Others(others)
    requires Located(extra, at, WireAll(others) + (Wire(Field(1, WideBody(u, c, l, disk, wideDisk))) + rest))
    ensures FromExtra(extra, at, Values(NarrowOf(u), NarrowOf(c), NarrowOf(l), if wideDisk then NARROW16 else disk, true))
      == Values(u.value, c.value, l.value, disk, true)
    decreases |others|
  {
    hide Located, Wire, WideBody, WideValues, NarrowOf, Stored, Read;
    var field := Field(1, WideBody(u, c, l, disk, wideDisk));
    LocatedSplit(extra, at, WireAll(others), Wire(field) + rest);
    if others == [] {
      LocatedSplit(extra, at, Wire(field), rest);
      FieldReads(extra, at, field);
      WideValuesRead(extra, at + 4, u, c, l, disk, wideDisk);
    } else {
      LocatedSplit(extra, at, Wire(others[0]), WireAll(others[1..]));
      FieldReads(extra, at, others[0]);
      assert WireAll(others) + (Wire(field) + rest) == Wire(others[0]) + (WireAll(others[1..]) + (Wire(field) + rest));
      LocatedSplit(extra, at, Wire(others[0]), WireAll(others[1..]) + (Wire(field) + rest));
      WideRoundTrip(extra, at + 4 + |others[0].body|, others[1..], rest, u, c, l, disk, wideDisk);
    }
  }

  /** Without a ZIP64 field the narrow values stand, unless one of them asks for a wide one. */
  lemma {:induction false} OthersOnly(extra: seq<byte>, at: nat, others: seq<Field>, narrow: Values)
    requires Others(others) && Located(extra, at, WireAll(others)) && at + |WireAll(others)| == |extra|
    ensures FromExtra(extra, at, narrow) == narrow.(valid := !NeedsWide(narrow))
    decreases |others|
  {
    hide Located, Wire, WideValues, NeedsWide, Read;
    if others != [] {
      LocatedSplit(extra, at, Wire(others[0]), WireAll(others[1..]));
      FieldReads(extra, at, others[0]);
      OthersOnly(extra, at + 4 + |others[0].body|, others[1..], narrow);
    }
  }

  /** The extra bytes that carry the wide values among `u`, `c` and `l`, behind fields of other kinds. */
  function ExtraOf(others: seq<Field>, u: Choice, c: Choice, l: Choice): seq<byte> {
    WireAll(others) + if u.wide || c.wide || l.wide then Wire(Field(1, WideBody(u, c, l, 0, false))) else []
  }

  /** They give back all three values, wide or not. */
  lemma ExtraReads(others: seq<Field>, u: Choice, c: Choice, l: Choice)
    requires Stored(u) && Stored(c) && Stored(l) && Others(others)
    ensures FromExtra(ExtraOf(others, u, c, l), 0, Values(NarrowOf(u), NarrowOf(c), NarrowOf(l), 0, true))
      == Values(u.value, c.value, l.value, 0, true)
  {
    hide Wire, WireAll, WideBody, FromExtra;
    var extra := ExtraOf(others, u, c, l);
    Whole(extra);
    if u.wide || c.wide || l.wide {
      var field := Wire(Field(1, WideBody(u, c, l, 0, false)));
      assert field + [] == field;
      WideRoundTrip(extra, 0, others, [], u, c, l, 0, false);
    } else {
      assert extra == WireAll(others);
      OthersOnly(extra, 0, others, Values(u.value, c.value, l.value, 0, true));
    }
  }

  // ---- the ZIP64 end of the directory --------------------------------------------------------

  function WideEndStart(extension: nat): (b: seq<byte>)
    ensures |b| == 24
  {
    LittleEndian(ZIP64_END, 4) + LittleEndian(44 + extension, 8) + LittleEndian(45, 2) + LittleEndian(45, 2)
    + LittleEndian(0, 4) + LittleEndian(0, 4)
  }

  function WideEndRest(d: Directory): (b: seq<byte>)
    ensures |b| == 32
  {
    LittleEndian(d.entries, 8) + LittleEndian(d.entries, 8) + LittleEndian(d.size, 8) + LittleEndian(d.offset, 8)
  }

  function WideEnd(d: Directory, extension: seq<byte>): (b: seq<byte>)
    ensures |b| == 56 + |extension|
  {
    WideEndStart(|extension|) + WideEndRest(d) + extension
  }

  function Locator(record: nat): (b: seq<byte>)
    ensures |b| == 20
  {
    LittleEndian(ZIP64_LOCATOR, 4) + LittleEndian(0, 4) + LittleEndian(record, 8) + LittleEndian(1, 4)
  }

  lemma WideEndStartReads(data: seq<byte>, at: nat, extension: nat)
    requires Located(data, at, WideEndStart(extension)) && Fits(44 + extension, 8)
    ensures Has(data, at, 24) && Read32(data, at) == ZIP64_END && Read64(data, at + 4) == 44 + extension
    ensures Read32(data, at + 16) == 0 && Read32(data, at + 20) == 0
  {
    hide LittleEndian, Located, Read;
    var a, b, c, d := LittleEndian(ZIP64_END, 4), LittleEndian(44 + extension, 8), LittleEndian(45, 2), LittleEndian(0, 4);
    LocatedSplit(data, at, a + b + c + c + d, d);
    LocatedSplit(data, at, a + b + c + c, d);
    LocatedSplit(data, at, a + b + c, c);
    LocatedSplit(data, at, a + b, c);
    LocatedSplit(data, at, a, b);
    ReadExact(data, at, ZIP64_END, 4);
    ReadExact(data, at + 4, 44 + extension, 8);
    ReadExact(data, at + 16, 0, 4);
    ReadExact(data, at + 20, 0, 4);
    HasAll(data, at, 24, d);
  }

  lemma WideEndRestReads(data: seq<byte>, at: nat, d: Directory)
    requires Located(data, at, WideEndRest(d)) && Fits(d.entries, 8) && Fits(d.size, 8) && Fits(d.offset, 8)
    ensures Has(data, at, 32) && Read64(data, at) == d.entries && Read64(data, at + 8) == d.entries
    ensures Read64(data, at + 16) == d.size && Read64(data, at + 24) == d.offset
  {
    hide LittleEndian, Located, Read;
    var a, b, c := LittleEndian(d.entries, 8), LittleEndian(d.size, 8), LittleEndian(d.offset, 8);
    LocatedSplit(data, at, a + a + b, c);
    LocatedSplit(data, at, a + a, b);
    LocatedSplit(data, at, a, a);
    ReadExact(data, at, d.entries, 8);
    ReadExact(data, at + 8, d.entries, 8);
    ReadExact(data, at + 16, d.size, 8);
    ReadExact(data, at + 24, d.offset, 8);
    HasAll(data, at, 32, c);
  }

  lemma LocatorReads(data: seq<byte>, at: nat, record: nat)
    requires Located(data, at, Locator(record)) && Fits(record, 8)
    ensures Has(data, at, 20) && Read32(data, at) == ZIP64_LOCATOR && Read32(data, at + 4) == 0
    ensures Read64(data, at + 8) == record && Read32(data, at + 16) == 1
  {
    hide LittleEndian, Located, Read;
    var a, b, c, d := LittleEndian(ZIP64_LOCATOR, 4), LittleEndian(0, 4), LittleEndian(record, 8), LittleEndian(1, 4);
    LocatedSplit(data, at, a + b + c, d);
    LocatedSplit(data, at, a + b, c);
    LocatedSplit(data, at, a, b);
    ReadExact(data, at, ZIP64_LOCATOR, 4);
    ReadExact(data, at + 4, 0, 4);
    ReadExact(data, at + 8, record, 8);
    ReadExact(data, at + 16, 1, 4);
    HasAll(data, at, 20, d);
  }

  /** What follows the directory `front` of a ZIP64 archive. */
  function WideClose(front: nat, d: Directory, extension: seq<byte>, count: nat, size: nat, offset: nat): seq<byte> {
    WideEnd(d, extension) + Locator(front) + EndStart(count) + EndRest(size, offset)
  }

  /**
   When any field of the short end record is filled with ones, the directory is the one the ZIP64 record
   gives, all of its 64 bits included.
   */
  lemma WideDirectoryReads(front: seq<byte>, d: Directory, extension: seq<byte>, count: u16, size: u32, offset: u32)
    requires Fits(d.entries, 8) && Fits(d.size, 8) && Fits(d.offset, 8)
    requires Fits(|front|, 8) && Fits(44 + |extension|, 8)
    requires count == 0xffff || size == NARROW32 || offset == NARROW32
    ensures var data := front + WideClose(|front|, d, extension, count, size, offset);
      && |data| >= 22 && EndOfDirectory(data) == Some(|data| - 22)
      && LocateDirectory(data, |data| - 22) == Some(d)
  {
    hide WideEndStart, WideEndRest, Locator, EndStart, EndRest, Located, Read;
    var record, at := |front|, |front| + 56 + |extension|;
    var wide, close := WideEnd(d, extension), WideClose(|front|, d, extension, count, size, offset);
    var data := front + close;
    Whole(data);
    LocatedSplit(data, 0, front, close);
    LocatedSplit(data, record, wide + Locator(record) + EndStart(count), EndRest(size, offset));
    LocatedSplit(data, record, wide + Locator(record), EndStart(count));
    LocatedSplit(data, record, wide, Locator(record));
    LocatedSplit(data, record, WideEndStart(|extension|) + WideEndRest(d), extension);
    LocatedSplit(data, record, WideEndStart(|extension|), WideEndRest(d));
    WideEndStartReads(data, record, |extension|);
    WideEndRestReads(data, record + 24, d);
    LocatorReads(data, at, record);
    EndStartReads(data, at + 20, count);
    EndRestReads(data, at + 32, size, offset);
    assert |data| - 22 == at + 20;
    assert EndAt(data, at + 20);
  }

  // ---- data descriptors ----------------------------------------------------------------------

  function SizeWidth(wide: bool): nat { if wide then 8 else 4 }

  function Descriptor(crc: nat, packed: nat, size: nat, wide: bool): (b: seq<byte>)
    ensures |b| == 4 + 2 * SizeWidth(wide)
  {
    LittleEndian(crc, 4) + LittleEndian(packed, SizeWidth(wide)) + LittleEndian(size, SizeWidth(wide))
  }

  function Signature(signed: bool): (b: seq<byte>)
    ensures |b| == if signed then 4 else 0
  {
    if signed then LittleEndian(DATA_DESCRIPTOR, 4) else []
  }

  predicate WideDescriptor(r: Record) { r.compressed32 == NARROW32 || r.uncompressed32 == NARROW32 }

  /** The descriptor of `r`, with or without its signature, stands at `end`, before the directory. */
  predicate DescriptorStands(data: seq<byte>, d: Directory, r: Record, v: Values, end: nat, signed: bool) {
    var wide := WideDescriptor(r);
    && Fits(r.crc, 4) && Fits(v.compressed, SizeWidth(wide)) && Fits(v.uncompressed, SizeWidth(wide))
    && Located(data, end, Signature(signed) + Descriptor(r.crc, v.compressed, v.uncompressed, wide))
    && After(r, end, signed) <= d.offset
  }

  /** The place behind the descriptor. */
  function After(r: Record, end: nat, signed: bool): nat {
    end + (if signed then 4 else 0) + 4 + 2 * SizeWidth(WideDescriptor(r))
  }

  lemma DescriptorFields(data: seq<byte>, at: nat, crc: nat, packed: nat, size: nat, wide: bool)
    requires Located(data, at, Descriptor(crc, packed, size, wide)) && Fits(crc, 4)
    requires Fits(packed, SizeWidth(wide)) && Fits(size, SizeWidth(wide))
    ensures var w := SizeWidth(wide);
      && Has(data, at, 4 + 2 * w) && Read32(data, at) == crc && Read(data, at + 4, w) == packed
      && Read(data, at + 4 + w, w) == size
  {
    hide LittleEndian, Located, Read;
    var w := SizeWidth(wide);
    var a, b, c := LittleEndian(crc, 4), LittleEndian(packed, w), LittleEndian(size, w);
    LocatedSplit(data, at, a + b, c);
    LocatedSplit(data, at, a, b);
    ReadExact(data, at, crc, 4);
    ReadExact(data, at + 4, packed, w);
    ReadExact(data, at + 4 + w, size, w);
    HasAll(data, at, 4 + 2 * w, c);
  }

  /** A descriptor with its signature is always accepted. */
  lemma SignedDescriptorReads(data: seq<byte>, d: Directory, r: Record, v: Values, end: nat)
    requires DescriptorStands(data, d, r, v, end, true)
    ensures DescriptorAgrees(data, d, r, v, end)
  {
    hide LittleEndian, Located, Read, Descriptor;
    var wide := WideDescriptor(r);
    LocatedSplit(data, end, Signature(true), Descriptor(r.crc, v.compressed, v.uncompressed, wide));
    ReadExact(data, end, DATA_DESCRIPTOR, 4);
    DescriptorFields(data, end + 4, r.crc, v.compressed, v.uncompressed, wide);
  }

  /** The one size that repeats the signature in every four bytes. */
  function Echo(wide: bool): nat { if wide then DATA_DESCRIPTOR * 0x1_0000_0001 else DATA_DESCRIPTOR }

  lemma {:induction false} FromLittleEndianConcat(a: seq<byte>, b: seq<byte>)
    ensures FromLittleEndian(a + b) == FromLittleEndian(a) + Pow256(|a|) * FromLittleEndian(b)
  {
    if a == [] {
      assert [] + b == b;
    } else {
      FromLittleEndianConcat(a[1..], b);
      assert (a + b)[1..] == a[1..] + b;
      assert Pow256(|a|) * FromLittleEndian(b) == 0x100 * (Pow256(|a| - 1) * FromLittleEndian(b));
    }
  }

  function Words(low: u32, high: u32): nat { low + 0x1_0000_0000 * high }

  /** Eight bytes are two words, the lower one first. */
  lemma TwoWords(data: seq<byte>, at: nat)
    requires Has(data, at, 8)
    ensures Read32(data, at) < 0x1_0000_0000 && Read32(data, at + 4) < 0x1_0000_0000
    ensures Read64(data, at) == Words(Read32(data, at), Read32(data, at + 4))
  {
    hide FromLittleEndian;
    var low, high := data[at..at + 4], data[at + 4..at + 8];
    assert data[at..at + 8] == low + high;
    FromLittleEndianConcat(low, high);
    Pow256Values();
    LittleEndianBound(low);
    LittleEndianBound(high);
  }

  /** The word `n` follows and everything is the signature over and over. */
  predicate Echoes(data: seq<byte>, d: Directory, r: Record, v: Values, after: nat) {
    && v.compressed == v.uncompressed == Echo(WideDescriptor(r))
    && after + 4 <= d.offset && Has(data, after, 4) && Read32(data, after) == DATA_DESCRIPTOR
  }

  lemma WordsInjective(a: u32, b: u32, c: u32, d: u32)
    ensures Words(a, b) == Words(c, d) <==> a == c && b == d
  {
  }

  lemma EchoIsWords()
    ensures Echo(true) == Words(DATA_DESCRIPTOR, DATA_DESCRIPTOR)
  {
  }

  /** Two numbers agree with what stands one word further on only if all their words are equal. */
  lemma EchoWords(p0: u32, p1: u32, s0: u32, s1: u32, n: u32)
    ensures p0 == DATA_DESCRIPTOR && Words(p1, s0) == Words(p0, p1) && Words(s1, n) == Words(s0, s1)
       <==> Words(p0, p1) == Echo(true) && Words(s0, s1) == Echo(true) && n == DATA_DESCRIPTOR
  {
    hide Words, Echo;
    EchoIsWords();
    WordsInjective(p1, s0, p0, p1);
    WordsInjective(s1, n, s0, s1);
    WordsInjective(p0, p1, DATA_DESCRIPTOR, DATA_DESCRIPTOR);
    WordsInjective(s0, s1, DATA_DESCRIPTOR, DATA_DESCRIPTOR);
  }

  /** What the inspector compares when it takes the checksum for the signature. */
  predicate Shifted(data: seq<byte>, d: Directory, r: Record, v: Values, at: nat, wide: bool) {
    var w := SizeWidth(wide);
    && Has(data, at, 4 + 2 * w) && at + 4 + 2 * w <= d.offset && Read32(data, at) == DATA_DESCRIPTOR
    && Read(data, at + 4, w) == v.compressed && Read(data, at + 4 + w, w) == v.uncompressed
  }

  lemma MistakenIsShifted(data: seq<byte>, d: Directory, r: Record, v: Values, end: nat)
    requires Has(data, end, 4) && Read32(data, end) == DATA_DESCRIPTOR == r.crc
    ensures DescriptorAgrees(data, d, r, v, end) <==> Shifted(data, d, r, v, end + 4, WideDescriptor(r))
  {
    hide Read;
  }

  lemma NarrowEcho(data: seq<byte>, d: Directory, r: Record, v: Values, end: nat)
    requires !WideDescriptor(r) && r.crc == DATA_DESCRIPTOR
    requires Has(data, end, 12) && Read32(data, end + 4) == v.compressed && Read32(data, end + 8) == v.uncompressed
    ensures Shifted(data, d, r, v, end + 4, false) <==> Echoes(data, d, r, v, end + 12)
  {
    hide Read;
  }

  lemma WideEcho(data: seq<byte>, d: Directory, r: Record, v: Values, end: nat)
    requires WideDescriptor(r) && r.crc == DATA_DESCRIPTOR
    requires Has(data, end, 20) && Read64(data, end + 4) == v.compressed && Read64(data, end + 12) == v.uncompressed
    ensures Shifted(data, d, r, v, end + 4, true) <==> Echoes(data, d, r, v, end + 20)
  {
    hide Read, Words, Echo;
    TwoWords(data, end + 4);
    TwoWords(data, end + 12);
    if Has(data, end + 20, 4) {
      TwoWords(data, end + 8);
      TwoWords(data, end + 16);
      EchoWords(Read32(data, end + 4), Read32(data, end + 8), Read32(data, end + 12), Read32(data, end + 16),
                Read32(data, end + 20));
    }
  }

  /**
   A descriptor without its signature is accepted exactly when its checksum is not the signature, or when both
   sizes and the word behind it repeat the signature too: otherwise its checksum is taken for the signature.
   */
  lemma UnsignedDescriptorExact(data: seq<byte>, d: Directory, r: Record, v: Values, end: nat)
    requires DescriptorStands(data, d, r, v, end, false)
    ensures DescriptorAgrees(data, d, r, v, end) <==>
      r.crc != DATA_DESCRIPTOR || Echoes(data, d, r, v, After(r, end, false))
  {
    hide LittleEndian, Located, Read, Descriptor, Echoes, Shifted;
    var wide := WideDescriptor(r);
    assert Signature(false) + Descriptor(r.crc, v.compressed, v.uncompressed, wide)
      == Descriptor(r.crc, v.compressed, v.uncompressed, wide);
    DescriptorFields(data, end, r.crc, v.compressed, v.uncompressed, wide);
    if r.crc == DATA_DESCRIPTOR {
      MistakenIsShifted(data, d, r, v, end);
      if wide { WideEcho(data, d, r, v, end); } else { NarrowEcho(data, d, r, v, end); }
    }
  }

  /** In the 64-bit form no entry of an accepted input is that large, so there the checksum alone decides. */
  lemma UnsignedWideExact(data: seq<byte>, d: Directory, r: Record, v: Values, end: nat)
    requires DescriptorStands(data, d, r, v, end, false) && WideDescriptor(r)
    requires |data| <= 256 * 1024 * 1024 && v.compressed <= |data|
    ensures DescriptorAgrees(data, d, r, v, end) <==> r.crc != DATA_DESCRIPTOR
  {
    hide DescriptorStands, DescriptorAgrees;
    UnsignedDescriptorExact(data, d, r, v, end);
  }
}
