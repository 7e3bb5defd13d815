/**
 A reference writer for archives, after section 4.3 of the PKWARE APPNOTE, and the proof that the inspector
 reads back what it writes: stored and deflated entries, 32-bit and 64-bit forms, any extra fields and comments,
 data descriptors, and archives inside archives.
 */
module ZipWriter {
  import opened Bytes
  import opened ZipFormat
  import opened ZipRecords
  import opened ZipWide
  import opened ZipReport
  import opened ZipWalk
  import ZipTheory
  import Crc32
  import Utf8
  import Inflater

  /** How an entry is written; `signed` is only looked at if the flags ask for a data descriptor. */
  datatype Style = Style(flags: u16, wideSize: bool, widePacked: bool, wideLocal: bool, others: seq<Field>,
                         unread: Unread, signed: bool)

  datatype Entry = Entry(name: seq<byte>, body: Body, packed: seq<byte>, deflated: bool, style: Style)

  /** A file, or an archive; with an `extension` the archive ends in a ZIP64 record that carries it. */
  datatype Body = Plain(content: seq<byte>) | Nested(entries: seq<Entry>, extension: Option<seq<byte>>)

  // ---- one entry -----------------------------------------------------------------------------

  function Kind(e: Entry): nat { if e.deflated then 8 else 0 }

  function Tailed(e: Entry): bool { FlagSet(e.style.flags, 3) }

  function Wide(e: Entry): bool { e.style.wideSize || e.style.widePacked }

  function Crc(content: seq<byte>): nat { Crc32.Checksum(content) as int }

  function Sizes(e: Entry, content: seq<byte>): (Choice, Choice) {
    (Choice(|content|, e.style.wideSize), Choice(|e.packed|, e.style.widePacked))
  }

  function Place(e: Entry, local: nat): Choice { Choice(local, e.style.wideLocal) }

  /** The directory record of an entry whose local header stands at `local`. */
  function RecordOf(e: Entry, content: seq<byte>, local: nat, next: nat): Record {
    var (size, packed) := Sizes(e, content);
    var place := Place(e, local);
    Record(e.style.flags, Kind(e), Crc(content), NarrowOf(packed), NarrowOf(size), e.name,
           ExtraOf(e.style.others, size, packed, place), 0, NarrowOf(place), next)
  }

  function CentralOf(e: Entry, content: seq<byte>, local: nat): seq<byte> {
    var r := RecordOf(e, content, local, 0);
    Central(FieldsOf(r), e.style.unread, 0, r.local32)
  }

  /** With a data descriptor the local header leaves checksum and sizes open. */
  function LocalFields(e: Entry, content: seq<byte>): Fields {
    var (size, packed) := Sizes(e, content);
    if Tailed(e) then Fields(e.style.flags, Kind(e), 0, 0, 0, e.name, WireAll(e.style.others))
    else
      Fields(e.style.flags, Kind(e), Crc(content), NarrowOf(packed), NarrowOf(size), e.name,
             ExtraOf(e.style.others, size, packed, Choice(0, false)))
  }

  function LocalOf(e: Entry, content: seq<byte>): seq<byte> { Local(LocalFields(e, content), e.style.unread) }

  function Tail(e: Entry, content: seq<byte>): seq<byte> {
    if Tailed(e) then Signature(e.style.signed) + Descriptor(Crc(content), |e.packed|, |content|, Wide(e)) else []
  }

  /** Local header, stored bytes, data descriptor. */
  function UnitOf(e: Entry, content: seq<byte>): seq<byte> { LocalOf(e, content) + e.packed + Tail(e, content) }

  ghost predicate Encodes(e: Entry, content: seq<byte>) {
    if e.deflated then Inflater.Inflate(e.packed, |content|) == Some(content) else e.packed == content
  }

  /** The flags are supported, and a name that is said to be UTF-8 is. */
  predicate Supported(r: Record) {
    !IsEncrypted(r) && !HasUnknownFlags(r) && (IsUtf8Name(r) ==> Utf8.Decode(r.name).Some?)
  }

  /** Everything fits its place. */
  ghost predicate UnitFits(e: Entry, content: seq<byte>, local: nat) {
    var (size, packed) := Sizes(e, content);
    && Sized(FieldsOf(RecordOf(e, content, local, 0)), e.style.unread) && Sized(LocalFields(e, content), e.style.unread)
    && Stored(size) && Stored(packed) && Stored(Place(e, local)) && Others(e.style.others)
    && Supported(RecordOf(e, content, local, 0)) && Encodes(e, content)
  }

  /** Written without its signature, a descriptor whose checksum is the signature will be mistaken. */
  predicate Mistaken(e: Entry, content: seq<byte>) { Tailed(e) && !e.style.signed && Crc(content) == DATA_DESCRIPTOR }

  // ---- archives ------------------------------------------------------------------------------

  function Content(b: Body): seq<byte>
    decreases b
  {
    match b
    case Plain(content) => content
    case Nested(es, x) => ArchiveOf(es, x)
  }

  /** The first `n` entries with their contents. */
  function Units(es: seq<Entry>, n: nat): seq<byte>
    requires n <= |es|
    decreases es, n
  {
    if n == 0 then [] else Units(es, n - 1) + UnitOf(es[n - 1], Content(es[n - 1].body))
  }

  /** The directory records of the first `n` entries. */
  function Centrals(es: seq<Entry>, n: nat): seq<byte>
    requires n <= |es|
    decreases es, n
  {
    if n == 0 then []
    else Centrals(es, n - 1) + CentralOf(es[n - 1], Content(es[n - 1].body), |Units(es, n - 1)|)
  }

  function DirectoryOf(es: seq<Entry>): Directory
    decreases es, |es| + 1
  {
    Directory(|es|, |Units(es, |es|)|, |Centrals(es, |es|)|)
  }

  function Close(d: Directory, x: Option<seq<byte>>): seq<byte> {
    match x
    case None => EndStart(d.entries) + EndRest(d.size, d.offset)
    case Some(extension) => WideClose(d.offset + d.size, d, extension, 0xffff, NARROW32, NARROW32)
  }

  function ArchiveOf(es: seq<Entry>, x: Option<seq<byte>>): seq<byte>
    decreases es, |es| + 2
  {
    Units(es, |es|) + Centrals(es, |es|) + Close(DirectoryOf(es), x)
  }

  predicate CloseFits(d: Directory, x: Option<seq<byte>>) {
    match x
    case None => d.entries < 0xffff && d.size < NARROW32 && d.offset < NARROW32
    case Some(extension) => Fits(d.entries, 8) && Fits(d.offset + d.size, 8) && Fits(44 + |extension|, 8)
  }

  ghost predicate Writable(es: seq<Entry>, x: Option<seq<byte>>)
    decreases es, |es| + 2
  {
    CloseFits(DirectoryOf(es), x) && forall i | 0 <= i < |es| :: EntryWritable(es[i], |Units(es, i)|)
  }

  ghost predicate EntryWritable(e: Entry, local: nat)
    decreases e
  {
    UnitFits(e, Content(e.body), local) && (e.body.Nested? ==> Writable(e.body.entries, e.body.extension))
  }

  // ---- one entry read back -------------------------------------------------------------------

  function ValuesBack(e: Entry, content: seq<byte>, local: nat): Values {
    Values(|content|, |e.packed|, local, 0, true)
  }

  lemma CentralReads(data: seq<byte>, at: nat, end: nat, e: Entry, content: seq<byte>, local: nat)
    requires Located(data, at, CentralOf(e, content, local)) && UnitFits(e, content, local)
    requires at + |CentralOf(e, content, local)| <= end
    ensures ParseRecord(data, at, end) == Some(RecordOf(e, content, local, at + |CentralOf(e, content, local)|))
  {
    hide Central, ExtraOf, Crc, ParseRecord, Supported, Encodes, Others;
    RecordReads(data, at, end, RecordOf(e, content, local, at + |CentralOf(e, content, local)|), e.style.unread);
  }

  lemma ValuesRead(e: Entry, content: seq<byte>, local: nat, next: nat)
    requires UnitFits(e, content, local)
    ensures RecordValues(RecordOf(e, content, local, next)) == ValuesBack(e, content, local)
  {
    hide ExtraOf, Crc, FromExtra, Supported, Encodes, Others, Stored, NarrowOf;
    var (size, packed) := Sizes(e, content);
    ExtraReads(e.style.others, size, packed, Place(e, local));
  }

  lemma HeaderRepeats(e: Entry, content: seq<byte>, local: nat, next: nat)
    requires UnitFits(e, content, local)
    ensures HeaderAgrees(RecordOf(e, content, local, next), ValuesBack(e, content, local), LocalFields(e, content))
  {
    hide ExtraOf, Crc, FromExtra, Supported, Encodes, Others, Stored, NarrowOf, FlagSet;
    var (size, packed) := Sizes(e, content);
    if !Tailed(e) {
      assert NarrowOf(Choice(0, false)) == 0 && Stored(Choice(0, false)) by { NothingToMove(); }
      ExtraReads(e.style.others, size, packed, Choice(0, false));
    }
  }

  lemma NothingToMove()
    ensures NarrowOf(Choice(0, false)) == 0 && Stored(Choice(0, false))
  {
  }

  /** The stored bytes lie right behind the local header, and the descriptor right behind them. */
  lemma UnitReads(data: seq<byte>, d: Directory, e: Entry, content: seq<byte>, local: nat, next: nat)
    requires Located(data, local, UnitOf(e, content)) && UnitFits(e, content, local)
    requires local + |UnitOf(e, content)| <= d.offset
    ensures var p := local + |LocalOf(e, content)|;
      && Payload(data, d, RecordOf(e, content, local, next), ValuesBack(e, content, local)) == Some(p)
      && Located(data, p, e.packed) && Located(data, p + |e.packed|, Tail(e, content))
  {
    hide Located, Local, LocalFields, Tail, Payload, HeaderAgrees, FieldsOf, RecordOf, Supported, Encodes, Others, Stored;
    var p := local + |LocalOf(e, content)|;
    LocatedSplit(data, local, LocalOf(e, content) + e.packed, Tail(e, content));
    LocatedSplit(data, local, LocalOf(e, content), e.packed);
    LocatedEnd(data, p, e.packed);
    HeaderRepeats(e, content, local, next);
    PayloadReads(data, d, RecordOf(e, content, local, next), ValuesBack(e, content, local), p, LocalFields(e, content),
                 e.style.unread);
  }

  /** What comes behind an entry: the directory, or the next local header. */
  predicate Follows(data: seq<byte>, d: Directory, at: nat) {
    at + 4 > d.offset || (Has(data, at, 4) && Read32(data, at) == LOCAL_HEADER)
  }

  lemma WideIsWide(e: Entry, content: seq<byte>, local: nat, next: nat)
    requires UnitFits(e, content, local)
    ensures WideDescriptor(RecordOf(e, content, local, next)) <==> Wide(e)
    ensures Fits(Crc(content), 4) && Fits(|e.packed|, SizeWidth(Wide(e))) && Fits(|content|, SizeWidth(Wide(e)))
  {
    hide ExtraOf, Crc, Supported, Encodes, Others;
  }

  /** A written descriptor is accepted exactly unless it is mistaken. */
  lemma TailReads(data: seq<byte>, d: Directory, e: Entry, content: seq<byte>, local: nat, next: nat, end: nat)
    requires UnitFits(e, content, local) && Tailed(e) && Located(data, end, Tail(e, content))
    requires end + |Tail(e, content)| <= d.offset && Follows(data, d, end + |Tail(e, content)|)
    ensures DescriptorAgrees(data, d, RecordOf(e, content, local, next), ValuesBack(e, content, local), end)
       <==> !Mistaken(e, content)
  {
    hide Located, Descriptor, Signature, UnitFits, FlagSet, ExtraOf, DescriptorAgrees, NarrowOf, Crc, WideDescriptor, Fits;
    var r, v := RecordOf(e, content, local, next), ValuesBack(e, content, local);
    WideIsWide(e, content, local, next);
    if e.style.signed {
      SignedDescriptorReads(data, d, r, v, end);
    } else {
      UnsignedDescriptorExact(data, d, r, v, end);
    }
  }

  /** The entry keeps within the entry size, the ratio and what is left of the totals. */
  predicate WithinBudget(b: Budget, e: Entry, content: seq<byte>) {
    |content| <= b.maximumEntryBytes && |content| <= b.maximumRatio * |e.packed|
  }

  lemma NotExceeded(b: Budget, e: Entry, content: seq<byte>, local: nat, spent: Spent)
    requires WithinBudget(b, e, content) && spent.entries <= b.maximumEntries
    requires spent.expanded + |content| <= b.maximumTotalBytes
    ensures !ExceedsBudget(b, spent, ValuesBack(e, content, local))
  {
    hide RatioExceeded;
    ZipTheory.RatioExact(|content|, |e.packed|, b.maximumRatio);
  }

  lemma DecodesBack(e: Entry, content: seq<byte>, local: nat, next: nat)
    requires UnitFits(e, content, local)
    ensures DecodedContent(RecordOf(e, content, local, next), ValuesBack(e, content, local), e.packed) == Some(content)
    ensures HasDescriptor(RecordOf(e, content, local, next)) == Tailed(e)
    ensures EffectiveName(RecordOf(e, content, local, next)) == Effective(e.name)
  {
    hide Inflater.Inflate, Effective, FlagSet, ExtraOf, Crc, Sized, Stored, Others, HasUnknownFlags, IsUtf8Name, Utf8.Decode;
  }

  function Counted(spent: Spent, content: seq<byte>): Spent {
    Spent(spent.entries + 1, spent.expanded + |content|)
  }

  ghost function FateOf(ctx: Context, e: Entry, content: seq<byte>, inside: Inside): Fate {
    Decoded(content, Mistaken(e, content), ctx.preview(content, Effective(e.name)), inside)
  }

  /** A written entry within the budget is decoded to its content; what is inside is entered next. */
  lemma ExamineReads(ctx: Context, data: seq<byte>, d: Directory, e: Entry, content: seq<byte>, local: nat, next: nat,
                     depth: nat, spent: Spent)
    requires UnitFits(e, content, local) && WithinBudget(ctx.budget, e, content)
    requires Located(data, local, UnitOf(e, content)) && local + |UnitOf(e, content)| <= d.offset
    requires Follows(data, d, local + |UnitOf(e, content)|)
    requires spent.entries < ctx.budget.maximumEntries && spent.expanded + |content| <= ctx.budget.maximumTotalBytes
    ensures var x := Enter(ctx, content, Effective(e.name), depth, Counted(spent, content));
      Examine(ctx, data, d, RecordOf(e, content, local, next), ValuesBack(e, content, local), depth, spent)
        == Examined(FateOf(ctx, e, content, x.inside), x.spent)
  {
    hide Payload, Crc, LocalOf, UnitFits, WithinBudget, ExceedsBudget, DecodedContent, HasDescriptor, EffectiveName,
      Enter, DescriptorAgrees, RecordOf, Follows, Tailed, Effective, Tail;
    var r, v, p := RecordOf(e, content, local, next), ValuesBack(e, content, local), local + |LocalOf(e, content)|;
    UnitReads(data, d, e, content, local, next);
    NotExceeded(ctx.budget, e, content, local, spent.(entries := spent.entries + 1));
    DecodesBack(e, content, local, next);
    LocatedIs(data, p, e.packed);
    if Tailed(e) { TailReads(data, d, e, content, local, next, p + |e.packed|); }
  }
}
