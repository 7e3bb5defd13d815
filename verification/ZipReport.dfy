/**
 What an inspection finds, as a tree: one visit per directory record, with the inspected archive inside it
 where there is one. The flat summary the inspector returns is a function of this tree.
 */
module ZipReport {
  import opened Bytes
  import opened ZipFormat
  import opened EntryNames
  import Utf8
  import Crc32

  /** The flags of the source's summary. */
  datatype Finding =
    | Malformed | PathEscape | BombRisk | EncryptedEntry | UnsupportedCompression | ExecutableEntry
    | ActiveContentEntry | NestedContainer | DuplicateName | CrcMismatch | BudgetExhausted | HeaderMismatch

  /** The source's summary; its Boolean members are collected in `findings`. */
  datatype Summary = Summary(entries: u32, inspected: u32, depth: nat, compressed: nat, uncompressed: nat,
                             findings: set<Finding>)

  /** What the separate file preflight says about decoded content. */
  datatype Preview = Preview(embeddedExecutable: bool, activeContent: bool, automaticAction: bool,
                             unsafeDeserialization: bool)

  datatype Report = Report(depth: nat, visits: seq<Visit>, stop: Stop)

  datatype Stop =
    | Refused(tooDeep: bool, tooShort: bool)
    | NoDirectory
    | BadDirectory(tooMany: bool)
    | BadRecord
    | BadExtra(record: Record, duplicate: bool)
    | Complete(tiled: bool)

  datatype Visit = Visit(record: Record, values: Values, duplicate: bool, fate: Fate)

  datatype Fate =
    | OverBudget
    | BadLocal
    | Undecoded
    | Decoded(content: seq<byte>, descriptorBad: bool, preview: Preview, inside: Inside)

  datatype Inside = NotArchive | TooDeep | Archive(report: Report)

  // ---- names ---------------------------------------------------------------------------------

  function Text(name: seq<byte>): string {
    seq(|name|, i requires 0 <= i < |name| => name[i] as char)
  }

  /** From the last dot on; empty without a dot. */
  function Extension(name: seq<byte>): seq<byte>
    decreases |name|
  {
    if name == [] then []
    else
      var last := |name| - 1;
      if name[last] == DOT then [DOT]
      else
        var e := Extension(name[..last]);
        if e == [] then [] else e + [name[last]]
  }

  const EXECUTABLE: set<string> := {".exe", ".dll", ".sys", ".scr", ".cpl", ".com", ".msi", ".bat", ".cmd",
    ".ps1", ".vbs", ".js", ".hta", ".lnk"}
  const ACTIVE: set<string> := {".docm", ".xlsm", ".pptm", ".xlam", ".ppam", ".sct", ".chm", ".jar"}
  const ARCHIVE: set<string> := {".zip", ".jar", ".docx", ".docm", ".xlsx", ".xlsm", ".pptx", ".pptm", ".apk",
    ".nupkg", ".whl", ".epub", ".odt", ".ods", ".odp"}

  predicate ExtensionIn(name: seq<byte>, extensions: set<string>) { Text(Extension(name)) in extensions }

  function Effective(name: seq<byte>): seq<byte> {
    match Canonical(name)
    case Some(c) => c
    case None => name
  }

  function EffectiveName(r: Record): seq<byte> { Effective(r.name) }

  /** Content is inspected as an archive if it begins like one or is named like one. */
  predicate IsArchive(content: seq<byte>, name: seq<byte>) {
    (|content| >= 4 && Read32(content, 0) == LOCAL_HEADER) || ExtensionIn(name, ARCHIVE)
  }

  // ---- findings ------------------------------------------------------------------------------

  function When(condition: bool, findings: set<Finding>): set<Finding> { if condition then findings else {} }

  /** What a record's name alone shows. */
  function NameFindings(r: Record, duplicate: bool): set<Finding> {
    When(IsUtf8Name(r) && Utf8.Decode(r.name).None?, {Malformed})
    + When(Canonical(r.name).None?, {PathEscape})
    + When(duplicate, {DuplicateName})
  }

  /** What a record within the budget shows before its content is looked at. */
  function RecordFindings(r: Record): set<Finding> {
    When(HasUnknownFlags(r), {Malformed})
    + When(IsEncrypted(r), {EncryptedEntry})
    + When(r.kind != 0 && r.kind != 8, {UnsupportedCompression})
    + When(ExtensionIn(EffectiveName(r), EXECUTABLE), {ExecutableEntry})
    + When(ExtensionIn(EffectiveName(r), ACTIVE), {ActiveContentEntry})
  }

  function ContentFindings(r: Record, content: seq<byte>, descriptorBad: bool, preview: Preview): set<Finding> {
    When((Crc32.Checksum(content) as int) != r.crc, {CrcMismatch})
    + When(descriptorBad, {HeaderMismatch, Malformed})
    + When(preview.embeddedExecutable, {ExecutableEntry})
    + When(preview.activeContent || preview.automaticAction || preview.unsafeDeserialization, {ActiveContentEntry})
  }

  function InsideFindings(i: Inside): set<Finding> {
    match i
    case NotArchive => {}
    case TooDeep => {NestedContainer, BudgetExhausted, BombRisk}
    case Archive(report) => {NestedContainer} + Findings(report)
  }

  function FateFindings(r: Record, f: Fate): set<Finding>
    decreases f
  {
    match f
    case OverBudget => {BombRisk, BudgetExhausted}
    case BadLocal => RecordFindings(r) + {HeaderMismatch, Malformed}
    case Undecoded => RecordFindings(r) + When(r.kind == 0 || r.kind == 8, {Malformed})
    case Decoded(content, descriptorBad, preview, inside) =>
      RecordFindings(r) + ContentFindings(r, content, descriptorBad, preview) + InsideFindings(inside)
  }

  function VisitFindings(v: Visit): set<Finding> {
    NameFindings(v.record, v.duplicate) + FateFindings(v.record, v.fate)
  }

  function StopFindings(s: Stop): set<Finding> {
    match s
    case Refused(tooDeep, tooShort) => When(tooDeep, {BudgetExhausted}) + When(tooShort, {Malformed})
    case NoDirectory => {Malformed}
    case BadDirectory(tooMany) => {Malformed} + When(tooMany, {BudgetExhausted})
    case BadRecord => {Malformed}
    case BadExtra(r, duplicate) => NameFindings(r, duplicate) + {Malformed}
    case Complete(tiled) => When(!tiled, {Malformed})
  }

  function VisitsFindings(vs: seq<Visit>): set<Finding> {
    if vs == [] then {} else VisitsFindings(vs[..|vs| - 1]) + VisitFindings(vs[|vs| - 1])
  }

  function Findings(r: Report): set<Finding> { VisitsFindings(r.visits) + StopFindings(r.stop) }

  // ---- counters ------------------------------------------------------------------------------

  function InsideEntries(v: Visit): nat {
    if v.fate.Decoded? && v.fate.inside.Archive? then Entries(v.fate.inside.report) else 0
  }

  function VisitsEntries(vs: seq<Visit>): nat {
    if vs == [] then 0 else VisitsEntries(vs[..|vs| - 1]) + 1 + InsideEntries(vs[|vs| - 1])
  }

  /** The number of records visited in the whole tree. */
  function Entries(r: Report): nat { VisitsEntries(r.visits) }

  function InsideInspected(v: Visit): nat {
    if v.fate.Decoded? && v.fate.inside.Archive? then InspectedEntries(v.fate.inside.report) else 0
  }

  function VisitsInspected(vs: seq<Visit>): nat {
    if vs == [] then 0
    else
      var v := vs[|vs| - 1];
      VisitsInspected(vs[..|vs| - 1]) + (if v.fate.Decoded? then 1 else 0) + InsideInspected(v)
  }

  /** The number of entries decoded in the whole tree. */
  function InspectedEntries(r: Report): nat { VisitsInspected(r.visits) }

  function InsideDepth(v: Visit): nat {
    if v.fate.Decoded? && v.fate.inside.Archive? then Depth(v.fate.inside.report) else 0
  }

  function VisitsDepth(vs: seq<Visit>, depth: nat): nat {
    if vs == [] then depth
    else
      Max(VisitsDepth(vs[..|vs| - 1], depth), InsideDepth(vs[|vs| - 1]))
  }

  /** The greatest depth at which an archive was entered. */
  function Depth(r: Report): nat { VisitsDepth(r.visits, r.depth) }

  function InsideExpanded(v: Visit): nat {
    if v.fate.Decoded?
    then |v.fate.content| + (if v.fate.inside.Archive? then ExpandedBytes(v.fate.inside.report) else 0)
    else 0
  }

  function VisitsExpanded(vs: seq<Visit>): nat {
    if vs == [] then 0 else VisitsExpanded(vs[..|vs| - 1]) + InsideExpanded(vs[|vs| - 1])
  }

  /** The number of bytes decoded in the whole tree. */
  function ExpandedBytes(r: Report): nat { VisitsExpanded(r.visits) }

  const U32: nat := 0x1_0000_0000
  const U64: nat := 0x1_0000_0000_0000_0000

  /** Within one archive the declared sizes are added up to the largest 64-bit value. */
  function Saturate(total: nat, size: nat): nat { if size > U64 - 1 - total then U64 - 1 else total + size }

  /** The total of a nested archive is added as unsigned 64-bit numbers are: it may wrap around. */
  function Wrap(total: nat, nested: nat): nat { (total + nested) % U64 }

  function DeclaredSize(v: Visit, packed: bool): nat {
    if packed then v.values.compressed else v.values.uncompressed
  }

  /** One visit's effect on a running total. */
  function AddBytes(total: nat, v: Visit, packed: bool): (n: nat)
    requires total < U64
    ensures n < U64
    decreases v
  {
    var own := Saturate(total, DeclaredSize(v, packed));
    if v.fate.Decoded? && v.fate.inside.Archive? then Wrap(own, TotalBytes(v.fate.inside.report, packed)) else own
  }

  function VisitsBytes(vs: seq<Visit>, packed: bool): (n: nat)
    ensures n < U64
    decreases vs
  {
    if vs == [] then 0 else AddBytes(VisitsBytes(vs[..|vs| - 1], packed), vs[|vs| - 1], packed)
  }

  /** The declared compressed or uncompressed size of the whole tree, as the source totals it. */
  function TotalBytes(r: Report, packed: bool): (n: nat)
    ensures n < U64
    decreases r
  {
    VisitsBytes(r.visits, packed)
  }

  /** The flat summary of a tree; its entry counters are 32 bits wide. */
  function Summarize(r: Report): Summary {
    Summary(Entries(r) % U32, InspectedEntries(r) % U32, Depth(r), TotalBytes(r, true), TotalBytes(r, false), Findings(r))
  }
}
