/**
 An archive as an ordinary program writes it, byte by byte: one stored file with the digits 1 to 9, under a name
 that leads out of the directory it is unpacked in. What the inspector says of it, in full.
 */
module ZipSample {
  import opened Bytes
  import opened ZipFormat
  import opened ZipRecords
  import opened ZipWide
  import opened ZipReport
  import opened ZipWalk
  import opened ZipWriter
  import opened EntryNames
  import ZipExamples
  import ZipReadBack
  import ZipTheory
  import BitStream
  import Crc32

  /** Two dots, a slash, the letter a. */
  const NAME: seq<byte> := [0x2e, 0x2e, 0x2f, 0x61]
  const DIGITS: seq<byte> := [0x31, 0x32, 0x33, 0x34, 0x35, 0x36, 0x37, 0x38, 0x39]

  const LOCAL_HEAD: seq<byte> := [0x50, 0x4b, 0x03, 0x04, 0x14, 0x00, 0x00, 0x00, 0x00, 0x00, 0x83, 0x18, 0x22, 0x58]
  const CENTRAL_HEAD: seq<byte> := [
    0x50, 0x4b, 0x01, 0x02, 0x14, 0x03, 0x14, 0x00, 0x00, 0x00, 0x00, 0x00, 0x83, 0x18, 0x22, 0x58]
  /** Checksum and sizes. */
  const SIZES: seq<byte> := [0x26, 0x39, 0xf4, 0xcb, 0x09, 0x00, 0x00, 0x00, 0x09, 0x00, 0x00, 0x00]
  /** How long the name and the extra bytes are. */
  const LENGTHS: seq<byte> := [0x04, 0x00, 0x00, 0x00]
  /** No comment, the first disk, the attributes, the place of the local header. */
  const PLACE: seq<byte> := [0x00, 0x00, 0x00, 0x00, 0x00, 0x00, 0x00, 0x00, 0x80, 0x01, 0x00, 0x00, 0x00, 0x00]
  const END: seq<byte> := [
    0x50, 0x4b, 0x05, 0x06, 0x00, 0x00, 0x00, 0x00, 0x01, 0x00, 0x01, 0x00, 0x32, 0x00, 0x00, 0x00, 0x2b, 0x00,
    0x00, 0x00, 0x00, 0x00]

  const LOCAL: seq<byte> := LOCAL_HEAD + SIZES + LENGTHS + NAME
  const CENTRAL: seq<byte> := CENTRAL_HEAD + SIZES + LENGTHS + PLACE + NAME
  const SAMPLE: seq<byte> := LOCAL + DIGITS + CENTRAL + END

  // ---- it is what the reference writer writes ------------------------------------------------

  const UNREAD := Unread([0x14, 0x03], [0x14, 0x00], [0x83, 0x18, 0x22, 0x58], [0x00, 0x00, 0x00, 0x00, 0x80, 0x01], [])

  const FILE: Entry := Entry(NAME, Plain(DIGITS), DIGITS, false, Style(0, false, false, false, [], UNREAD, false))

  lemma Two(v: nat, a: byte, b: byte)
    requires v == a + 0x100 * b
    ensures LittleEndian(v, 2) == [a, b]
  {
    LittleEndianNext(a, b, 1);
    LittleEndianNext(b, 0, 0);
  }

  lemma Four(v: nat, a: byte, b: byte, c: byte, d: byte)
    requires v == a + 0x100 * (b + 0x100 * (c + 0x100 * d))
    ensures LittleEndian(v, 4) == [a, b, c, d]
  {
    hide LittleEndian;
    LittleEndianNext(a, b + 0x100 * (c + 0x100 * d), 3);
    LittleEndianNext(b, c + 0x100 * d, 2);
    LittleEndianNext(c, d, 1);
    LittleEndianNext(d, 0, 0);
    assert LittleEndian(0, 0) == [];
  }

  lemma Signatures()
    ensures LittleEndian(LOCAL_HEADER, 4) == [0x50, 0x4b, 0x03, 0x04]
    ensures LittleEndian(CENTRAL_HEADER, 4) == [0x50, 0x4b, 0x01, 0x02]
    ensures LittleEndian(END_OF_DIRECTORY, 4) == [0x50, 0x4b, 0x05, 0x06]
  {
    hide LittleEndian;
    Four(LOCAL_HEADER, 0x50, 0x4b, 0x03, 0x04);
    Four(CENTRAL_HEADER, 0x50, 0x4b, 0x01, 0x02);
    Four(END_OF_DIRECTORY, 0x50, 0x4b, 0x05, 0x06);
  }

  lemma Numbers()
    ensures LittleEndian(0, 2) == [0x00, 0x00] && LittleEndian(1, 2) == [0x01, 0x00] && LittleEndian(4, 2) == [0x04, 0x00]
    ensures LittleEndian(0, 4) == [0x00, 0x00, 0x00, 0x00] && LittleEndian(9, 4) == [0x09, 0x00, 0x00, 0x00]
    ensures LittleEndian(0xcbf4_3926, 4) == [0x26, 0x39, 0xf4, 0xcb]
    ensures LittleEndian(50, 4) == [0x32, 0x00, 0x00, 0x00] && LittleEndian(43, 4) == [0x2b, 0x00, 0x00, 0x00]
  {
    hide LittleEndian;
    Two(0, 0, 0);
    Two(1, 1, 0);
    Two(4, 4, 0);
    Four(0, 0, 0, 0, 0);
    Four(9, 9, 0, 0, 0);
    Four(0xcbf4_3926, 0x26, 0x39, 0xf4, 0xcb);
    Four(50, 0x32, 0, 0, 0);
    Four(43, 0x2b, 0, 0, 0);
  }

  lemma FileFields()
    ensures Crc(DIGITS) == 0xcbf4_3926 && !Tailed(FILE)
    ensures FieldsOf(RecordOf(FILE, DIGITS, 0, 0)) == LocalFields(FILE, DIGITS) == FIELDS
    ensures RecordOf(FILE, DIGITS, 0, 0).local32 == 0
  {
    hide Crc32.Checksum, Shr;
    Crc32.CheckValue();
    ChecksumNumber();
    BitStream.ShrZero(3);
    assert ExtraOf([], Choice(9, false), Choice(9, false), Choice(0, false)) == [];
  }

  lemma ChecksumNumber()
    ensures (0xcbf4_3926 as bv32) as int == 0xcbf4_3926
  {
  }

  const FIELDS := Fields(0, 0, 0xcbf4_3926, 9, 9, NAME, [])

  lemma PartsAre()
    ensures HeadPart(LOCAL_HEADER, UNREAD.needed, FIELDS, UNREAD) == LOCAL_HEAD
    ensures HeadPart(CENTRAL_HEADER, UNREAD.madeBy + UNREAD.needed, FIELDS, UNREAD) == CENTRAL_HEAD
    ensures SizesPart(FIELDS) == SIZES && LengthsPart(FIELDS) == LENGTHS && PlacePart(UNREAD, 0, 0) == PLACE
  {
    hide LittleEndian;
    Signatures();
    Numbers();
  }

  lemma LocalIs()
    ensures Local(FIELDS, UNREAD) == LOCAL
  {
    hide HeadPart, SizesPart, LengthsPart, LOCAL_HEAD, SIZES, LENGTHS, NAME;
    PartsAre();
    assert LOCAL + [] == LOCAL;
  }

  lemma CentralIs()
    ensures Central(FIELDS, UNREAD, 0, 0) == CENTRAL
  {
    hide HeadPart, SizesPart, LengthsPart, PlacePart, CENTRAL_HEAD, SIZES, LENGTHS, PLACE, NAME;
    PartsAre();
    assert CENTRAL + [] == CENTRAL;
  }

  lemma EndIs()
    ensures EndStart(1) + EndRest(50, 43) == END
  {
    hide LittleEndian;
    Signatures();
    Numbers();
  }

  lemma PartsSized()
    ensures |LOCAL| == 34 && |DIGITS| == 9 && |CENTRAL| == 50 && |END| == 22
  {
  }

  lemma SampleIsWritten()
    ensures UnitOf(FILE, DIGITS) == LOCAL + DIGITS && CentralOf(FILE, DIGITS, 0) == CENTRAL
    ensures DirectoryOf([FILE]) == Directory(1, 43, 50) && ArchiveOf([FILE], None) == SAMPLE
  {
    hide LOCAL, DIGITS, CENTRAL, END, Crc, Tailed, LocalFields, RecordOf, FieldsOf, Local, Central, EndStart, EndRest, Units,
      Centrals;
    FileFields();
    LocalIs();
    CentralIs();
    EndIs();
    PartsSized();
    ZipExamples.OneUnit(FILE);
    assert FILE.style.unread == UNREAD && FILE.packed == DIGITS && Content(FILE.body) == DIGITS;
    assert LOCAL + DIGITS + [] == LOCAL + DIGITS;
  }

  // ---- what the inspector makes of it --------------------------------------------------------

  lemma SampleWritable()
    ensures UnitFits(FILE, DIGITS, 0) && CloseFits(DirectoryOf([FILE]), None)
    ensures Writable([FILE], None)
  {
    hide Crc, Supported, NarrowOf, Stored, FlagSet, Fits, DirectoryOf, Units, Tailed, LocalFields, FieldsOf;
    SampleIsWritten();
    FileFields();
    ZipExamples.FlagsOfStored(RecordOf(FILE, DIGITS, 0, 0));
    assert FieldsFit(FIELDS) && Stored(Choice(9, false)) && Stored(Choice(0, false)) by { SmallEnough(); }
    ZipExamples.OneUnit(FILE);
    assert EntryWritable(FILE, 0);
  }

  lemma SmallEnough()
    ensures FieldsFit(FIELDS) && Stored(Choice(9, false)) && Stored(Choice(0, false))
  {
  }

  lemma NameEscapes()
    ensures Canonical(NAME).None? && Effective(NAME) == NAME
  {
    hide Split;
    SafeExact(NAME);
    assert PartAt(NAME, 0, 2, [0x2e, 0x2e]);
  }

  lemma NameExtends()
    ensures Text(Extension(NAME)) == "./a"
  {
    var a, b: seq<byte> := [0x2e, 0x2e], [0x2e, 0x2e, 0x2f];
    assert Extension(a) == [0x2e];
    assert b[..2] == a && Extension(b) == [0x2e, 0x2f];
    assert NAME[..3] == b && Extension(NAME) == [0x2e, 0x2f, 0x61];
  }

  lemma NameIsPlain()
    ensures !ExtensionIn(NAME, EXECUTABLE) && !ExtensionIn(NAME, ACTIVE) && !ExtensionIn(NAME, ARCHIVE)
  {
    hide Extension, Text;
    NameExtends();
    assert forall e | e in EXECUTABLE || e in ACTIVE || e in ARCHIVE :: |e| > 1 && e[1] != '/';
  }

  lemma DigitsAreNoArchive()
    ensures !IsArchive(DIGITS, Effective(NAME))
  {
    hide ExtensionIn, Effective, Read;
    NameEscapes();
    NameIsPlain();
    ZipExamples.FirstByteDiffers(DIGITS);
  }

  /** Any budget that admits nine bytes in one file. */
  predicate Admits(b: Budget) {
    b.maximumEntries >= 1 && b.maximumEntryBytes >= 9 && b.maximumTotalBytes >= 9 && b.maximumRatio >= 1
  }

  /** The file preflight finds nothing in a few digits. */
  ghost predicate FindsNothing(ctx: Context) { ctx.preview(DIGITS, NAME) == Preview(false, false, false, false) }

  function SampleVisit(): Visit {
    Visit(RecordOf(FILE, DIGITS, 0, 93), Values(9, 9, 0, 0, true), false,
          Decoded(DIGITS, false, Preview(false, false, false, false), NotArchive))
  }

  lemma SampleExamined(ctx: Context)
    requires Admits(ctx.budget) && FindsNothing(ctx)
    ensures Examine(ctx, SAMPLE, Directory(1, 43, 50), RecordOf(FILE, DIGITS, 0, 93), Values(9, 9, 0, 0, true), 0, Spent(0, 0))
      == Examined(SampleVisit().fate, Spent(1, 9))
  {
    hide UnitFits, UnitOf, Units, Centrals, SAMPLE, Examine, RecordOf, Inspect, IsArchive, Effective, Crc, Located, DIGITS, NAME,
      CloseFits, DirectoryOf, ArchiveOf;
    SampleIsWritten();
    SampleWritable();
    PartsSized();
    ZipExamples.OneUnit(FILE);
    ZipReadBack.EntryPlaces([FILE], None, 0);
    ZipReadBack.NextFollows([FILE], None, 0);
    DigitsAreNoArchive();
    NameEscapes();
    FileFields();
    assert 9 <= ctx.budget.maximumRatio * 9;
    ExamineReads(ctx, SAMPLE, Directory(1, 43, 50), FILE, DIGITS, 0, 93, 0, Spent(0, 0));
  }

  lemma SampleParsed()
    ensures |SAMPLE| == 115
    ensures EndOfDirectory(SAMPLE) == Some(93) && LocateDirectory(SAMPLE, 93) == Some(Directory(1, 43, 50))
    ensures ParseRecord(SAMPLE, 43, 93) == Some(RecordOf(FILE, DIGITS, 0, 93))
    ensures RecordValues(RecordOf(FILE, DIGITS, 0, 93)) == Values(9, 9, 0, 0, true)
  {
    hide UnitFits, UnitOf, Units, Centrals, SAMPLE, RecordOf, Crc, Located, DIGITS, CloseFits, DirectoryOf, ArchiveOf, ParseRecord,
      CentralOf, EndOfDirectory, LocateDirectory, FromExtra;
    SampleIsWritten();
    SampleWritable();
    PartsSized();
    SampleSized();
    ZipExamples.OneUnit(FILE);
    ZipReadBack.EntryPlaces([FILE], None, 0);
    ZipReadBack.EndReads([FILE], None);
    CentralReads(SAMPLE, 43, 93, FILE, DIGITS, 0);
    ValuesRead(FILE, DIGITS, 0, 93);
  }

  lemma SampleSized()
    ensures |SAMPLE| == 115
  {
    hide LOCAL, DIGITS, CENTRAL, END;
    PartsSized();
  }

  lemma SampleInspected(ctx: Context)
    requires Admits(ctx.budget) && FindsNothing(ctx)
    ensures Inspect(ctx, SAMPLE, Spent(0, 0), 0) == Outcome(Report(0, [SampleVisit()], Complete(true)), Spent(1, 9))
  {
    hide Inspect, SAMPLE, Walk, Examine, ParseRecord, RecordValues, EndOfDirectory, LocateDirectory, RecordOf;
    var d, v := Directory(1, 43, 50), Values(9, 9, 0, 0, true);
    SampleParsed();
    SampleExamined(ctx);
    assert RecordOf(FILE, DIGITS, 0, 93).next == 93 by { NextIs(93); }
    ZipTheory.OneRecordWalked(ctx, SAMPLE, d, 0, Spent(0, 0), RecordOf(FILE, DIGITS, 0, 93), v);
    ZipTheory.InspectWalks(ctx, SAMPLE, 93, d, 0, Spent(0, 0));
  }

  lemma NextIs(next: nat)
    ensures RecordOf(FILE, DIGITS, 0, next).next == next
  {
    hide Crc, NarrowOf;
  }

  lemma NoFlags(k: nat)
    ensures !FlagSet(0, k)
  {
    BitStream.ShrZero(k);
  }

  lemma SampleShows()
    ensures VisitFindings(SampleVisit()) == {PathEscape}
  {
    hide Crc32.Checksum, FlagSet, Canonical, ExtensionIn, Effective, DIGITS, NAME, ExtraOf, NarrowOf, IsArchive;
    NameEscapes();
    NameIsPlain();
    FileFields();
    forall k: nat
      ensures !FlagSet(0, k)
    {
      NoFlags(k);
    }
    var r := RecordOf(FILE, DIGITS, 0, 93);
    assert NameFindings(r, false) == {PathEscape} && RecordFindings(r) == {};
    assert ContentFindings(r, DIGITS, false, Preview(false, false, false, false)) == {};
  }

  /** The whole summary: one entry of nine bytes, inspected, at depth zero, and a name that escapes; nothing else. */
  lemma SampleSummary(ctx: Context)
    requires Admits(ctx.budget) && FindsNothing(ctx)
    ensures Summarize(Inspect(ctx, SAMPLE, Spent(0, 0), 0).report) == Summary(1, 1, 0, 9, 9, {PathEscape})
  {
    hide Inspect, SAMPLE, VisitFindings, RecordOf, DIGITS;
    SampleInspected(ctx);
    SampleShows();
    var r := Report(0, [SampleVisit()], Complete(true));
    OneVisit(SampleVisit());
  }

  lemma OneVisit(v: Visit)
    requires v.fate.Decoded? && v.fate.inside == NotArchive && v.values == Values(9, 9, 0, 0, true)
    ensures Summarize(Report(0, [v], Complete(true))) == Summary(1, 1, 0, 9, 9, VisitFindings(v))
  {
    hide VisitFindings;
    assert [v][..0] == [];
    var r := Report(0, [v], Complete(true));
    assert VisitsBytes([], true) == 0 && VisitsBytes([], false) == 0;
    assert TotalBytes(r, true) == AddBytes(0, v, true) == 9 && TotalBytes(r, false) == AddBytes(0, v, false) == 9;
    ZipTheory.TotalsNil(0);
    ZipTheory.TotalsCons(v, [], 0);
    assert [v] + [] == [v];
    assert Entries(r) == 1 && InspectedEntries(r) == 1 && Depth(r) == 0;
    assert VisitsFindings([v]) == VisitsFindings([]) + VisitFindings(v);
    assert VisitsFindings([v]) + {} == VisitFindings(v);
  }
}
