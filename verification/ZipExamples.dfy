/** That every file can be written, and two archives that show where the inspector's answers go wrong. */
module ZipExamples {
  import opened Bytes
  import opened ZipFormat
  import opened ZipRecords
  import opened ZipWide
  import opened ZipReport
  import opened ZipWalk
  import opened ZipWriter
  import opened ZipReadBack
  import opened EntryNames
  import BitStream
  import ZipTheory
  import ZipClean
  import Crc32
  import Utf8

  const UNREAD := Unread([20, 0], [20, 0], [0, 0, 0, 0], [0, 0, 0, 0, 0, 0], [])

  /** A stored entry; with a descriptor, flag 3 is set. */
  function StoredEntry(name: seq<byte>, body: Body, tailed: bool, signed: bool): Entry {
    Entry(name, body, Content(body), false, Style(if tailed then 8 else 0, false, false, false, [], UNREAD, signed))
  }

  lemma {:induction false} ShrEight(k: nat)
    ensures Shr(8, k) % 2 == 1 <==> k == 3
  {
    if k >= 4 {
      assert Shr(8, k) == Shr(4, k - 1) == Shr(2, k - 2) == Shr(1, k - 3) == Shr(0, k - 4);
      BitStream.ShrZero(k - 4);
    } else {
      assert Shr(8, 1) == 4 && Shr(8, 2) == 2 && Shr(8, 3) == 1;
    }
  }

  lemma FlagsOfStored(r: Record)
    requires r.flags == 0 || r.flags == 8
    ensures Supported(r) && (HasDescriptor(r) <==> r.flags == 8)
  {
    hide Utf8.Decode, Shr;
    forall k: nat
      ensures FlagSet(r.flags, k) <==> r.flags == 8 && k == 3
    {
      BitStream.ShrZero(k);
      ShrEight(k);
    }
  }

  lemma SizeStored(content: seq<byte>)
    requires |content| < 0x8000_0000
    ensures Stored(Choice(|content|, false)) && NarrowOf(Choice(|content|, false)) == |content|
    ensures Fits(|content|, 4)
  {
  }

  lemma CrcFits(content: seq<byte>)
    ensures Fits(Crc(content), 4)
  {
    hide Crc32.Checksum;
  }

  lemma StoredFits(name: seq<byte>, body: Body, tailed: bool, signed: bool)
    requires 0 < |name| < 0x1_0000 && |Content(body)| < 0x8000_0000
    ensures UnitFits(StoredEntry(name, body, tailed, signed), Content(body), 0)
  {
    hide Crc, Supported, Content, NarrowOf, Stored, FlagSet, Fits;
    var e, content := StoredEntry(name, body, tailed, signed), Content(body);
    FlagsOfStored(RecordOf(e, content, 0, 0));
    SizeStored(content);
    SizeStored([]);
    CrcFits(content);
    assert Fits(e.style.flags, 2) && Fits(0, 2) && Fits(0, 4) by { SmallFits(); }
    assert ExtraOf([], Choice(|content|, false), Choice(|content|, false), Place(e, 0)) == [];
    assert ExtraOf([], Choice(|content|, false), Choice(|content|, false), Choice(0, false)) == [];
  }

  lemma SmallFits()
    ensures Fits(0, 2) && Fits(8, 2) && Fits(0, 4)
  {
  }

  lemma OneUnit(e: Entry)
    ensures Units([e], 0) == [] && Centrals([e], 0) == []
    ensures Units([e], 1) == UnitOf(e, Content(e.body)) && Centrals([e], 1) == CentralOf(e, Content(e.body), 0)
  {
    hide UnitOf, CentralOf, Content;
    assert Units([e], 1) == Units([e], 0) + UnitOf(e, Content(e.body));
    assert Centrals([e], 1) == Centrals([e], 0) + CentralOf(e, Content(e.body), |Units([e], 0)|);
  }

  lemma OneDirectory(name: seq<byte>, body: Body, tailed: bool, signed: bool)
    requires 0 < |name| < 0x1_0000 && |Content(body)| < 0x8000_0000
    ensures CloseFits(DirectoryOf([StoredEntry(name, body, tailed, signed)]), None)
  {
    hide Crc, Content, NarrowOf, FlagSet, Units, Centrals, Signature, Descriptor;
    var e, content := StoredEntry(name, body, tailed, signed), Content(body);
    OneUnit(e);
    assert ExtraOf([], Choice(|content|, false), Choice(|content|, false), Place(e, 0)) == [];
    assert ExtraOf([], Choice(|content|, false), Choice(|content|, false), Choice(0, false)) == [];
  }

  /** One file of less than two gigabytes, or one archive, can always be written as it is. */
  lemma StoredIsWritable(name: seq<byte>, body: Body, tailed: bool, signed: bool)
    requires 0 < |name| < 0x1_0000 && |Content(body)| < 0x8000_0000
    requires body.Nested? ==> Writable(body.entries, body.extension)
    ensures Writable([StoredEntry(name, body, tailed, signed)], None)
  {
    hide UnitFits, Content, CloseFits, DirectoryOf, Units;
    var e := StoredEntry(name, body, tailed, signed);
    StoredFits(name, body, tailed, signed);
    OneDirectory(name, body, tailed, signed);
    OneUnit(e);
    assert EntryWritable(e, 0);
  }

  // ---- names ---------------------------------------------------------------------------------

  /** A name that is one clean part is its own canonical form. */
  lemma CleanPartStays(name: seq<byte>)
    requires IsCleanPart(name)
    ensures Effective(name) == name
  {
    hide Split, IsSeparator;
    assert Join([name]) == name by { assert [name][..0] == []; }
    SplitJoin([name]);
    CleanFixed([name]);
    CleanPartIsSafe(name);
  }

  lemma CleanPartIsSafe(name: seq<byte>)
    requires IsCleanPart(name) && Split(name) == [name]
    ensures Safe(name)
  {
    hide Split;
  }

  const LETTER: seq<byte> := [0x61]
  const DOT_ZIP: seq<byte> := [0x61, 0x2e, 0x7a, 0x69, 0x70]

  lemma LettersAreClean()
    ensures IsCleanPart(LETTER) && IsCleanPart(DOT_ZIP)
  {
  }

  lemma LetterIsNoArchive()
    ensures Effective(LETTER) == LETTER && !ExtensionIn(LETTER, ARCHIVE)
  {
    hide Effective, IsCleanPart;
    LettersAreClean();
    CleanPartStays(LETTER);
    assert Extension(LETTER) == [] by { assert Extension(LETTER[..0]) == []; }
    assert Text([]) == "";
  }

  lemma ZipIsArchive()
    ensures Effective(DOT_ZIP) == DOT_ZIP && ExtensionIn(DOT_ZIP, ARCHIVE)
  {
    hide Effective, IsCleanPart;
    LettersAreClean();
    CleanPartStays(DOT_ZIP);
    ZipExtension();
    assert Text([0x2e, 0x7a, 0x69, 0x70]) == ".zip";
  }

  lemma ZipExtension()
    ensures Extension(DOT_ZIP) == [0x2e, 0x7a, 0x69, 0x70]
  {
    var a, b, c: seq<byte> := [0x61, 0x2e], [0x61, 0x2e, 0x7a], [0x61, 0x2e, 0x7a, 0x69];
    assert Extension(a) == [0x2e];
    assert b[..2] == a && Extension(b) == [0x2e, 0x7a];
    assert c[..3] == b && Extension(c) == [0x2e, 0x7a, 0x69];
    assert DOT_ZIP[..4] == c;
  }

  // ---- a descriptor that is mistaken ---------------------------------------------------------

  /** Its checksum is the signature of a data descriptor. */
  const UNLUCKY: seq<byte> := [0xac, 0x0a, 0x7a, 0xd5]

  function UnluckyEntry(signed: bool): Entry { StoredEntry(LETTER, Plain(UNLUCKY), true, signed) }

  lemma UnluckyMistaken(signed: bool)
    ensures Mistaken(UnluckyEntry(signed), UNLUCKY) <==> !signed
    ensures Told([UnluckyEntry(signed)], 1) == When(!signed, {HeaderMismatch, Malformed})
    ensures AllEntries([UnluckyEntry(signed)], 1) == 1 && AllBytes([UnluckyEntry(signed)], 1) == 4
  {
    Crc32.SignatureIsChecksum();
    hide Crc32.Checksum, Shr;
    ShrEight(3);
    var e := UnluckyEntry(signed);
    assert Content(e.body) == UNLUCKY;
    assert Told([e], 0) == {} && Told([e], 1) == Told([e], 0) + ToldOf(e);
    assert AllEntries([e], 0) == 0 && AllBytes([e], 0) == 0;
  }

  lemma UnluckyIsNoArchive()
    ensures !IsArchive(UNLUCKY, Effective(LETTER))
  {
    LetterIsNoArchive();
    hide ExtensionIn, Effective;
    assert UNLUCKY[0..4] == UNLUCKY;
    FirstByteDiffers(UNLUCKY);
  }

  lemma FirstByteDiffers(b: seq<byte>)
    requires |b| >= 4 && b[0] != 0x50
    ensures Read32(b, 0) != LOCAL_HEADER
  {
    assert b[0..4][0] == b[0];
    assert FromLittleEndian(b[0..4]) == b[0] + 0x100 * FromLittleEndian(b[0..4][1..]);
    assert LOCAL_HEADER == 0x50 + 0x100 * 0x4034b;
  }

  /**
   An archive with one stored file of four bytes, its header, directory record and descriptor all correct:
   written with the signature it is found in order, without it malformed.
   */
  lemma DescriptorMistaken(ctx: Context, signed: bool)
    requires ctx.budget.maximumEntries >= 1 && ctx.budget.maximumEntryBytes >= 4
    requires ctx.budget.maximumTotalBytes >= 4 && ctx.budget.maximumRatio >= 1
    ensures var es := [UnluckyEntry(signed)];
      var o := Inspect(ctx, ArchiveOf(es, None), Spent(0, 0), 0);
      && ReadsAll(ctx, o.report, es, 0)
      && Findings(o.report) - HARMLESS == When(!signed, {HeaderMismatch, Malformed})
  {
    hide Inspect, ArchiveOf, Writable, ReadsAll, Findings, Told, Admissible, AllEntries, AllBytes;
    StoredIsWritable(LETTER, Plain(UNLUCKY), true, signed);
    UnluckyMistaken(signed);
    UnluckyAdmissible(ctx.budget, signed);
    WrittenArchiveReadsBack(ctx, [UnluckyEntry(signed)], None);
  }

  lemma UnluckyAdmissible(b: Budget, signed: bool)
    requires b.maximumEntryBytes >= 4 && b.maximumRatio >= 1
    ensures Admissible(b, [UnluckyEntry(signed)], 0)
  {
    hide IsArchive, Effective;
    UnluckyIsNoArchive();
    assert 4 <= b.maximumRatio * 4;
    assert EntryAdmissible(b, UnluckyEntry(signed), 0);
  }

  // ---- a nested archive that makes the total wrap around -------------------------------------

  const HUGE: nat := U64 - 1

  /** Of size zero, but with the largest compressed size the ZIP64 field can say. */
  function HugeRecord(next: nat): Record {
    Record(0, 0, 0, NARROW32, 0, LETTER, ExtraOf([], Choice(0, false), Choice(HUGE, true), Choice(0, false)), 0, 0, next)
  }

  function HugeCentral(): seq<byte> { Central(FieldsOf(HugeRecord(0)), UNREAD, 0, 0) }

  function HugeArchive(): seq<byte> {
    HugeCentral() + (EndStart(1) + EndRest(|HugeCentral()|, 0))
  }

  function HugeDirectory(): Directory { Directory(1, 0, |HugeCentral()|) }

  lemma HugeSizes()
    ensures |HugeCentral()| == 59 && |HugeArchive()| == 81
    ensures RecordFits(HugeRecord(59)) && Sized(FieldsOf(HugeRecord(59)), UNREAD)
  {
    hide LittleEndian, HeadPart, SizesPart, LengthsPart, PlacePart;
    assert WireAll([]) == [];
  }

  /** Its one record is read as it was written. */
  lemma HugeReads()
    ensures ParseRecord(HugeArchive(), 0, 59) == Some(HugeRecord(59))
    ensures RecordValues(HugeRecord(59)) == Values(0, HUGE, 0, 0, true)
    ensures EndOfDirectory(HugeArchive()) == Some(59) && LocateDirectory(HugeArchive(), 59) == Some(HugeDirectory())
  {
    hide Central, ExtraOf, EndStart, EndRest, FromExtra, EndOfDirectory, LocateDirectory, ParseRecord, Located, RecordFits,
      Sized;
    HugeSizes();
    Whole(HugeArchive());
    LocatedSplit(HugeArchive(), 0, HugeCentral(), EndStart(1) + EndRest(59, 0));
    RecordReads(HugeArchive(), 0, 59, HugeRecord(59), UNREAD);
    ExtraReads([], Choice(0, false), Choice(HUGE, true), Choice(0, false));
    ShortDirectoryReads(HugeCentral(), HugeDirectory());
  }

  lemma ParsedIsCentral(data: seq<byte>, at: nat, end: nat)
    requires ParseRecord(data, at, end).Some?
    ensures Has(data, at, 4) && Read32(data, at) == CENTRAL_HEADER
  {
    hide Read;
  }

  /** Where the record says there is a local header there is none, so its bytes are not found. */
  lemma HugeHasNoPayload(d: Directory, r: Record, v: Values)
    requires v.localOffset == 0
    ensures Payload(HugeArchive(), d, r, v) == None
  {
    hide HugeArchive, Read, ParseRecord, LocalSizesAgree;
    HugeReads();
    ParsedIsCentral(HugeArchive(), 0, 59);
  }

  function HugeVisit(): Visit { Visit(HugeRecord(59), Values(0, HUGE, 0, 0, true), false, BadLocal) }

  function HugeReport(): Report { Report(1, [HugeVisit()], Complete(true)) }

  lemma HugeExamined(ctx: Context, spent: Spent)
    requires spent.entries < ctx.budget.maximumEntries && spent.expanded <= ctx.budget.maximumTotalBytes
    ensures Examine(ctx, HugeArchive(), HugeDirectory(), HugeRecord(59), Values(0, HUGE, 0, 0, true), 1, spent)
      == Examined(BadLocal, Spent(spent.entries + 1, spent.expanded))
  {
    hide HugeArchive, HugeDirectory, HugeRecord, Payload;
    HugeHasNoPayload(HugeDirectory(), HugeRecord(59), Values(0, HUGE, 0, 0, true));
  }

  lemma HugeInspected(ctx: Context, spent: Spent)
    requires spent.entries < ctx.budget.maximumEntries && spent.expanded <= ctx.budget.maximumTotalBytes
    requires ctx.budget.maximumDepth >= 1
    ensures Inspect(ctx, HugeArchive(), spent, 1).report == HugeReport()
  {
    hide Inspect, HugeArchive, HugeCentral, HugeRecord, EndOfDirectory, LocateDirectory, Walk, Examine, ParseRecord,
      RecordValues;
    var data, d, v := HugeArchive(), HugeDirectory(), Values(0, HUGE, 0, 0, true);
    HugeSizes();
    HugeReads();
    assert HugeRecord(59).next == 59 by { HugeNext(59); }
    HugeExamined(ctx, spent);
    ZipTheory.OneRecordWalked(ctx, data, d, 1, spent, HugeRecord(59), v);
    ZipTheory.InspectWalks(ctx, data, 59, d, 1, spent);
  }

  lemma HugeNext(next: nat)
    ensures HugeRecord(next).next == next
  {
    hide ExtraOf;
  }

  function WrappingEntry(): Entry { StoredEntry(DOT_ZIP, Plain(HugeArchive()), false, false) }

  lemma WrappingEntered(ctx: Context, spent: Spent)
    requires spent.entries < ctx.budget.maximumEntries && spent.expanded <= ctx.budget.maximumTotalBytes
    requires ctx.budget.maximumDepth >= 1
    ensures Enter(ctx, HugeArchive(), Effective(DOT_ZIP), 0, spent).inside == Archive(HugeReport())
  {
    hide HugeArchive, HugeReport, Inspect, Effective, ExtensionIn, Read;
    ZipIsArchive();
    HugeInspected(ctx, spent);
  }

  lemma OneVisit(v: Visit, packed: bool)
    ensures VisitsBytes([v], packed) == AddBytes(0, v, packed)
    ensures ZipClean.VisitsTrueBytes([v], packed) == DeclaredSize(v, packed) + ZipClean.InsideBytes(v, packed)
  {
    assert [v][..0] == [];
    assert VisitsBytes([], packed) == 0 && ZipClean.VisitsTrueBytes([], packed) == 0;
  }

  lemma HugeTotals()
    ensures TotalBytes(HugeReport(), true) == HUGE == ZipClean.TrueBytes(HugeReport(), true)
  {
    hide HugeRecord;
    OneVisit(HugeVisit(), true);
  }

  /** A visit that declares `n` packed bytes and holds the huge report. */
  lemma WrappingTotals(r: Report, v: Visit, n: nat)
    requires r.visits == [v] && v.fate.Decoded? && v.fate.inside == Archive(HugeReport())
    requires v.values.compressed == n && 0 < n < 0x1_0000
    ensures TotalBytes(r, true) == n - 1 && ZipClean.TrueBytes(r, true) == HUGE + n
  {
    hide HugeReport;
    HugeTotals();
    OneVisit(v, true);
  }

  /**
   A stored `a.zip` of 81 bytes with the huge record in it, inspected on any budget that reaches it: the reported
   total of packed bytes wraps around to 80, while the records declare 2^64 + 80.
   */
  lemma NestedTotalWraps(ctx: Context)
    requires ctx.budget.maximumEntries >= 2 && ctx.budget.maximumDepth >= 1 && ctx.budget.maximumEntryBytes >= 81
    requires ctx.budget.maximumTotalBytes >= 81 && ctx.budget.maximumRatio >= 1
    ensures var r := Inspect(ctx, ArchiveOf([WrappingEntry()], None), Spent(0, 0), 0).report;
      TotalBytes(r, true) == 80 && ZipClean.TrueBytes(r, true) == U64 + 80
  {
    hide Inspect, ArchiveOf, HugeArchive, HugeReport, WithinBudget, TotalBytes, ZipClean.TrueBytes, CloseFits, Writable;
    HugeSizes();
    StoredIsWritable(DOT_ZIP, Plain(HugeArchive()), false, false);
    WrappingWithin(ctx.budget);
    WrappingEntered(ctx, Counted(Spent(0, 0), HugeArchive()));
    var v := OneEntryInspected(ctx, WrappingEntry());
    WrappingTotals(Inspect(ctx, ArchiveOf([WrappingEntry()], None), Spent(0, 0), 0).report, v, 81);
  }

  /** The inspection of an archive of one entry. */
  lemma OneEntryInspected(ctx: Context, e: Entry) returns (v: Visit)
    requires Writable([e], None) && WithinBudget(ctx.budget, e, Content(e.body))
    requires 0 < ctx.budget.maximumEntries && |Content(e.body)| <= ctx.budget.maximumTotalBytes
    ensures Inspect(ctx, ArchiveOf([e], None), Spent(0, 0), 0).report.visits == [v]
    ensures v.values.compressed == |e.packed| && v.fate.Decoded?
    ensures v.fate.inside == Enter(ctx, Content(e.body), Effective(e.name), 0, Counted(Spent(0, 0), Content(e.body))).inside
  {
    hide Inspect, ArchiveOf, WithinBudget, Enter, VisitOf, Effective, CloseFits, EntryWritable, WalkFrom, Content, DirectoryOf,
      Units;
    var content := Content(e.body);
    InspectIsWalk(ctx, [e], None, 0, Spent(0, 0));
    var next, seen := WalkStep(ctx, [e], None, 0, 0, {}, Spent(0, 0));
    var inner := Enter(ctx, content, Effective(e.name), 0, Counted(Spent(0, 0), content));
    WalkEnds(ctx, [e], None, 0, seen, inner.spent);
    v := VisitOf(ctx, e, |Units([e], 0)|, next, {}, inner.inside);
    assert [v] + [] == [v];
    VisitShows(ctx, e, |Units([e], 0)|, next, {}, inner.inside);
  }

  lemma VisitShows(ctx: Context, e: Entry, local: nat, next: nat, names: set<seq<byte>>, inside: Inside)
    ensures var v := VisitOf(ctx, e, local, next, names, inside);
      v.values.compressed == |e.packed| && v.fate.Decoded? && v.fate.inside == inside
  {
    hide RecordOf, Content, IsDuplicate, Mistaken, Effective;
  }

  lemma WrappingWithin(b: Budget)
    requires b.maximumEntryBytes >= 81 && b.maximumRatio >= 1
    ensures WithinBudget(b, WrappingEntry(), HugeArchive()) && Content(WrappingEntry().body) == HugeArchive()
  {
    hide HugeArchive;
    HugeSizes();
    assert 81 <= b.maximumRatio * 81;
  }
}
