/**
 When each of the twelve findings is reported, exactly: as conditions on the data of the archive and of every
 archive inside it, and on what was left of the budget when a record was reached.
 */
module ZipFindings {
  import opened Bytes
  import opened ZipFormat
  import opened ZipReport
  import opened ZipWalk
  import opened ZipTheory
  import opened EntryNames
  import Utf8
  import Crc32
  import Inflater

  // ---- flag masks ----------------------------------------------------------------------------

  /** The bitwise conjunction. */
  function And(a: nat, b: nat): nat {
    if a == 0 then 0 else 2 * And(a / 2, b / 2) + if a % 2 == 1 && b % 2 == 1 then 1 else 0
  }

  lemma AndFrom(flags: nat, i: nat, mask: nat)
    ensures And(Shr(flags, i), mask) != 0 <==>
      (FlagSet(flags, i) && mask % 2 == 1) || And(Shr(flags, i + 1), mask / 2) != 0
  {
    hide Shr;
    ShrStep(flags, i);
  }

  lemma {:induction false} AndNothing(a: nat)
    ensures And(a, 0) == 0
  {
    if a > 0 { AndNothing(a / 2); }
  }

  lemma WholeFlags(flags: nat)
    ensures Shr(flags, 0) == flags
  {
  }

  lemma EncryptedMask(flags: nat)
    ensures And(flags, 0x2041) != 0 <==> FlagSet(flags, 0) || FlagSet(flags, 6) || FlagSet(flags, 13)
  {
    hide And, Shr, FlagSet;
    WholeFlags(flags);
    AndFrom(flags, 0, 0x2041);
    AndFrom(flags, 1, 0x1020);
    AndFrom(flags, 2, 0x810);
    AndFrom(flags, 3, 0x408);
    AndFrom(flags, 4, 0x204);
    AndFrom(flags, 5, 0x102);
    AndFrom(flags, 6, 0x81);
    AndFrom(flags, 7, 0x40);
    AndFrom(flags, 8, 0x20);
    AndFrom(flags, 9, 0x10);
    AndFrom(flags, 10, 8);
    AndFrom(flags, 11, 4);
    AndFrom(flags, 12, 2);
    AndFrom(flags, 13, 1);
    AndNothing(Shr(flags, 14));
  }

  /** The complement of the mask 0x284f of supported flags. */
  const UNSUPPORTED: nat := 0xffff - 0x284f

  lemma UnsupportedMask(r: Record)
    ensures And(r.flags, UNSUPPORTED) != 0 <==> HasUnknownFlags(r)
  {
    hide And, Shr, FlagSet;
    var flags := r.flags;
    WholeFlags(flags);
    AndFrom(flags, 0, 0xd7b0);
    AndFrom(flags, 1, 0x6bd8);
    AndFrom(flags, 2, 0x35ec);
    AndFrom(flags, 3, 0x1af6);
    AndFrom(flags, 4, 0xd7b);
    AndFrom(flags, 5, 0x6bd);
    AndFrom(flags, 6, 0x35e);
    AndFrom(flags, 7, 0x1af);
    AndFrom(flags, 8, 0xd7);
    AndFrom(flags, 9, 0x6b);
    AndFrom(flags, 10, 0x35);
    AndFrom(flags, 11, 0x1a);
    AndFrom(flags, 12, 0xd);
    AndFrom(flags, 13, 6);
    AndFrom(flags, 14, 3);
    AndFrom(flags, 15, 1);
    AndNothing(Shr(flags, 16));
  }

  lemma DescriptorMask(flags: nat)
    ensures And(flags, 0x0008) != 0 <==> FlagSet(flags, 3)
  {
    hide And, Shr, FlagSet;
    WholeFlags(flags);
    AndFrom(flags, 0, 8);
    AndFrom(flags, 1, 4);
    AndFrom(flags, 2, 2);
    AndFrom(flags, 3, 1);
    AndNothing(Shr(flags, 4));
  }

  lemma Utf8Mask(flags: nat)
    ensures And(flags, 0x0800) != 0 <==> FlagSet(flags, 11)
  {
    hide And, Shr, FlagSet;
    WholeFlags(flags);
    AndFrom(flags, 0, 0x800);
    AndFrom(flags, 1, 0x400);
    AndFrom(flags, 2, 0x200);
    AndFrom(flags, 3, 0x100);
    AndFrom(flags, 4, 0x80);
    AndFrom(flags, 5, 0x40);
    AndFrom(flags, 6, 0x20);
    AndFrom(flags, 7, 0x10);
    AndFrom(flags, 8, 8);
    AndFrom(flags, 9, 4);
    AndFrom(flags, 10, 2);
    AndFrom(flags, 11, 1);
    AndNothing(Shr(flags, 12));
  }

  // ---- extensions ----------------------------------------------------------------------------

  /** The name ends in `e`. */
  predicate EndsIn(name: seq<byte>, e: string) { |e| <= |name| && Text(name)[|name| - |e|..] == e }

  /** A dot and what follows it, without another dot. */
  predicate IsExtension(e: string) { e != "" && e[0] == '.' && forall i | 1 <= i < |e| :: e[i] != '.' }

  /** The extension of a name is what the name ends in. */
  lemma {:induction false} ExtensionIsEnd(name: seq<byte>, e: string)
    requires IsExtension(e)
    ensures Text(Extension(name)) == e <==> EndsIn(name, e)
    decreases |name|
  {
    if name == [] {
      assert Text([]) == "";
    } else if name[|name| - 1] == DOT {
      assert Text(name)[|name| - 1] == '.' && Text([DOT]) == ".";
      if EndsIn(name, e) { assert e[|e| - 1] == Text(name)[|name| - 1]; }
      if e == "." { assert Text(name)[|name| - 1..] == e; }
    } else {
      EndsBack(name, e);
      ExtensionBack(name, e);
      if |e| > 1 { ExtensionIsEnd(name[..|name| - 1], e[..|e| - 1]); }
    }
  }

  lemma EndsBack(name: seq<byte>, e: string)
    requires name != [] && name[|name| - 1] != DOT && IsExtension(e)
    ensures EndsIn(name, e) <==> |e| > 1 && e[|e| - 1] == name[|name| - 1] as char && EndsIn(name[..|name| - 1], e[..|e| - 1])
  {
    var front, last := name[..|name| - 1], name[|name| - 1] as char;
    assert Text(name) == Text(front) + [last];
    if |e| <= |name| {
      var t := Text(name)[|name| - |e|..];
      assert t == Text(front)[|name| - |e|..] + [last];
      assert e == e[..|e| - 1] + [e[|e| - 1]];
      assert t[..|e| - 1] == Text(front)[|name| - |e|..] && t[|e| - 1] == last;
    }
  }

  lemma ExtensionBack(name: seq<byte>, e: string)
    requires name != [] && name[|name| - 1] != DOT && IsExtension(e)
    ensures Text(Extension(name)) == e <==>
      |e| > 1 && e[|e| - 1] == name[|name| - 1] as char && Text(Extension(name[..|name| - 1])) == e[..|e| - 1]
  {
    ExtensionNext(name);
    hide Extension;
    var front := Extension(name[..|name| - 1]);
    TextBack(front, name[|name| - 1], e);
    assert Text([]) == "";
    hide Text, IsExtension;
    if |e| > 1 { assert e[..|e| - 1] != ""; }
  }

  lemma TextBack(front: seq<byte>, last: byte, e: string)
    requires e != ""
    ensures Text(front + [last]) == e <==> Text(front) == e[..|e| - 1] && last as char == e[|e| - 1]
  {
    var whole := Text(front + [last]);
    assert whole == Text(front) + [last as char];
    assert whole[..|front|] == Text(front) && whole[|front|] == last as char;
    assert e == e[..|e| - 1] + [e[|e| - 1]];
  }

  lemma ExtensionNext(name: seq<byte>)
    requires name != [] && name[|name| - 1] != DOT
    ensures var front := Extension(name[..|name| - 1]);
      Extension(name) == if front == [] then [] else front + [name[|name| - 1]]
  {
  }

  predicate EndsInAny(name: seq<byte>, extensions: set<string>) { exists e :: e in extensions && EndsIn(name, e) }

  lemma ExtensionInExact(name: seq<byte>, extensions: set<string>)
    requires forall e | e in extensions :: IsExtension(e)
    ensures ExtensionIn(name, extensions) <==> EndsInAny(name, extensions)
  {
    hide Extension, EndsIn, Text, IsExtension;
    forall e | e in extensions
      ensures Text(Extension(name)) == e <==> EndsIn(name, e)
    {
      ExtensionIsEnd(name, e);
    }
  }

  predicate NamedProgram(name: seq<byte>) {
    EndsInAny(name, {".exe", ".dll", ".sys", ".scr", ".cpl", ".com", ".msi", ".bat", ".cmd", ".ps1", ".vbs", ".js", ".hta", ".lnk"})
  }

  predicate NamedActive(name: seq<byte>) {
    EndsInAny(name, {".docm", ".xlsm", ".pptm", ".xlam", ".ppam", ".sct", ".chm", ".jar"})
  }

  predicate NamedArchive(name: seq<byte>) {
    EndsInAny(name, {".zip", ".jar", ".docx", ".docm", ".xlsx", ".xlsm", ".pptx", ".pptm", ".apk", ".nupkg", ".whl", ".epub",
      ".odt", ".ods", ".odp"})
  }

  lemma NamesExact(name: seq<byte>)
    ensures ExtensionIn(name, EXECUTABLE) <==> NamedProgram(name)
    ensures ExtensionIn(name, ACTIVE) <==> NamedActive(name)
    ensures ExtensionIn(name, ARCHIVE) <==> NamedArchive(name)
  {
    hide ExtensionIn, EndsInAny;
    ExtensionInExact(name, EXECUTABLE);
    ExtensionInExact(name, ACTIVE);
    ExtensionInExact(name, ARCHIVE);
  }

  /** It begins with the signature of a local header, or is named like an archive. */
  predicate TakenForArchive(content: seq<byte>, name: seq<byte>) {
    (|content| >= 4 && content[..4] == [0x50, 0x4b, 0x03, 0x04]) || NamedArchive(name)
  }

  lemma TakenExact(content: seq<byte>, name: seq<byte>)
    ensures TakenForArchive(content, name) <==> IsArchive(content, name)
  {
    hide NamedArchive, ExtensionIn;
    NamesExact(name);
    if |content| >= 4 {
      FromLittleEndianRoundTrip(content[..4]);
      assert content[0..4] == content[..4];
      SignatureBytes();
    }
  }

  lemma SignatureBytes()
    ensures LittleEndian(LOCAL_HEADER, 4) == [0x50, 0x4b, 0x03, 0x04]
    ensures FromLittleEndian([0x50, 0x4b, 0x03, 0x04]) == LOCAL_HEADER
  {
    var b: seq<byte> := [0x50, 0x4b, 0x03, 0x04];
    assert b[1..] == [0x4b, 0x03, 0x04] && b[1..][1..] == [0x03, 0x04] && b[1..][1..][1..] == [0x04] && b[1..][1..][1..][1..] == [];
    FromLittleEndianRoundTrip(b);
  }

  // ---- places in the tree --------------------------------------------------------------------

  /** An archive that was entered: its data, its depth, what had been used of the budget by then, what was found. */
  datatype Place = Place(data: seq<byte>, depth: nat, spent: Spent, report: Report)

  /** What had been used of the budget when the `i`-th record was reached. */
  function Before(spent: Spent, visits: seq<Visit>, i: nat): Spent
    requires i <= |visits|
  {
    Spent(spent.entries + VisitsEntries(visits[..i]), spent.expanded + VisitsExpanded(visits[..i]))
  }

  predicate Nests(v: Visit) { v.fate.Decoded? && v.fate.inside.Archive? }

  /** The archive inside the `i`-th record. */
  function Inner(p: Place, i: nat): Place
    requires i < |p.report.visits| && Nests(p.report.visits[i])
  {
    var f, s := p.report.visits[i].fate, Before(p.spent, p.report.visits, i);
    Place(f.content, p.depth + 1, Spent(s.entries + 1, s.expanded + |f.content|), f.inside.report)
  }

  /** `q` is `p` or lies somewhere inside it. */
  predicate Within(p: Place, q: Place)
    decreases p.report
  {
    p == q || exists i | 0 <= i < |p.report.visits| :: InsideOf(p, i, p.report.visits[i], q)
  }

  predicate InsideOf(p: Place, i: nat, v: Visit, q: Place)
    requires i < |p.report.visits| && v == p.report.visits[i]
    decreases v
  {
    Nests(v) && Within(Inner(p, i), q)
  }

  // ---- what is found at which place ----------------------------------------------------------

  /** What a visit shows itself, apart from what is inside the archive it holds. */
  function Shown(v: Visit): set<Finding> {
    NameFindings(v.record, v.duplicate) +
    match v.fate
    case Decoded(content, descriptorBad, preview, inside) =>
      RecordFindings(v.record) + ContentFindings(v.record, content, descriptorBad, preview) +
      (match inside
       case NotArchive => {}
       case TooDeep => {NestedContainer, BudgetExhausted, BombRisk}
       case Archive(_) => {NestedContainer})
    case _ => FateFindings(v.record, v.fate)
  }

  predicate Raised(r: Report, f: Finding) {
    f in StopFindings(r.stop) || exists i | 0 <= i < |r.visits| :: f in Shown(r.visits[i])
  }

  lemma ShownOrInside(v: Visit, f: Finding)
    ensures f in VisitFindings(v) <==> f in Shown(v) || (Nests(v) && f in Findings(v.fate.inside.report))
  {
    hide NameFindings, RecordFindings, ContentFindings, Findings;
    if v.fate.Decoded? {
      var inside := v.fate.inside;
      assert InsideFindings(inside) ==
        match inside
        case NotArchive => {}
        case TooDeep => {NestedContainer, BudgetExhausted, BombRisk}
        case Archive(report) => {NestedContainer} + Findings(report);
    }
  }

  lemma {:induction false} AmongVisits(vs: seq<Visit>, f: Finding)
    ensures f in VisitsFindings(vs) <==> exists i | 0 <= i < |vs| :: f in VisitFindings(vs[i])
    decreases |vs|
  {
    hide VisitFindings;
    if vs != [] {
      var front := vs[..|vs| - 1];
      AmongVisits(front, f);
      assert forall i | 0 <= i < |front| :: front[i] == vs[i];
    }
  }

  /** A finding is reported exactly when it is raised at some place. */
  lemma {:induction false} RaisedSomewhere(p: Place, f: Finding)
    ensures f in Findings(p.report) <==> exists q :: Within(p, q) && Raised(q.report, f)
    decreases p.report
  {
    hide VisitFindings, VisitsFindings, StopFindings, Shown;
    AmongVisits(p.report.visits, f);
    forall i | 0 <= i < |p.report.visits|
      ensures f in VisitFindings(p.report.visits[i]) <==>
        (f in Shown(p.report.visits[i]) || exists q :: InsideOf(p, i, p.report.visits[i], q) && Raised(q.report, f))
    {
      ShownOrInside(p.report.visits[i], f);
      if Nests(p.report.visits[i]) { RaisedSomewhere(Inner(p, i), f); }
    }
    assert Within(p, p);
  }

  // ---- one directory -------------------------------------------------------------------------

  /** The directory that the last end record names, if there is one. */
  function Named(data: seq<byte>): Option<Directory> {
    match EndOfDirectory(data)
    case None => None
    case Some(end) =>
      LastEndIsLast(data, Earliest(data), |data| - 22);
      LocateDirectory(data, end)
  }

  /** It is used if the budget allows for its records and it ends before the end record. */
  function DirectoryOf(b: Budget, data: seq<byte>): Option<Directory> {
    match Named(data)
    case None => None
    case Some(d) =>
      if d.entries <= b.maximumEntries && d.offset + d.size <= EndOfDirectory(data).value then Some(d) else None
  }

  /** A record that can be visited: its wide values are complete and it lies on the first disk. */
  predicate Usable(r: Record) { RecordValues(r).valid && RecordValues(r).disk == 0 }

  /** The records that are read from `central` on, at most `n` and up to the first that cannot be visited. */
  function Listed(data: seq<byte>, central: nat, end: nat, n: nat): seq<Record>
    decreases n
  {
    if n == 0 then []
    else
      match ParseRecord(data, central, end)
      case None => []
      case Some(r) => [r] + if Usable(r) then Listed(data, r.next, end, n - 1) else []
  }

  /** All `n` records could be visited and take up the directory to its end. */
  predicate AllListed(rs: seq<Record>, central: nat, end: nat, n: nat) {
    && |rs| == n && (forall i | 0 <= i < n :: Usable(rs[i]))
    && end == if n == 0 then central else rs[n - 1].next
  }

  function Records(b: Budget, data: seq<byte>): seq<Record> {
    match DirectoryOf(b, data)
    case None => []
    case Some(d) => Listed(data, d.offset, d.offset + d.size, d.entries)
  }

  /** The records a report speaks of. */
  function Reached(r: Report): seq<Record> {
    seq(|r.visits|, i requires 0 <= i < |r.visits| => r.visits[i].record) + if r.stop.BadExtra? then [r.stop.record] else []
  }

  lemma {:induction false} WalkLists(ctx: Context, data: seq<byte>, d: Directory, depth: nat, ordinal: nat, central: nat,
                                     names: set<seq<byte>>, spent: Spent, r: Report)
    requires ordinal <= d.entries
    requires var w := Walk(ctx, data, d, depth, ordinal, central, names, spent); r == Report(depth, w.visits, w.stop)
    ensures Reached(r) == Listed(data, central, d.offset + d.size, d.entries - ordinal)
    ensures r.stop.Complete? || r.stop.BadRecord? || r.stop.BadExtra?
    ensures r.stop == Complete(true) <==> AllListed(Reached(r), central, d.offset + d.size, d.entries - ordinal)
    ensures forall i | 0 <= i < |r.visits| :: Usable(r.visits[i].record)
    decreases d.entries - ordinal
  {
    hide Walk, Examine, ParseRecord, RecordValues, IsDuplicate, AddName, AllListed;
    var end, n := d.offset + d.size, d.entries - ordinal;
    if Continues(data, d, ordinal, central) {
      var head := ParseRecord(data, central, end).value;
      var x := Examine(ctx, data, d, head, RecordValues(head), depth, spent);
      WalkGoesOn(ctx, data, d, depth, ordinal, central, names, spent);
      var w := Walk(ctx, data, d, depth, ordinal + 1, head.next, AddName(head, names), x.spent);
      var rest := Report(depth, w.visits, w.stop);
      WalkLists(ctx, data, d, depth, ordinal + 1, head.next, AddName(head, names), x.spent, rest);
      assert Reached(r) == [head] + Reached(rest);
      AllListedCons(head, Reached(rest), central, end, n);
    } else {
      WalkStops(ctx, data, d, depth, ordinal, central, names, spent);
      WalkStopsAt(ctx, data, d, depth, ordinal, central, names, spent);
      assert r == Report(depth, [], r.stop);
      StopLists(depth, r.stop, central, end, n);
    }
  }

  lemma StopLists(depth: nat, stop: Stop, central: nat, end: nat, n: nat)
    requires stop.Complete? || stop.BadRecord? || stop.BadExtra?
    requires stop.Complete? ==> n == 0 && stop.tiled == (central == end)
    requires !stop.Complete? ==> n > 0
    requires stop.BadExtra? ==> !Usable(stop.record)
    ensures var rs := Reached(Report(depth, [], stop));
      && rs == (if stop.BadExtra? then [stop.record] else [])
      && (stop == Complete(true) <==> AllListed(rs, central, end, n))
  {
    hide Usable;
  }

  lemma AllListedCons(r: Record, rest: seq<Record>, central: nat, end: nat, n: nat)
    requires n > 0 && Usable(r)
    ensures AllListed([r] + rest, central, end, n) <==> AllListed(rest, r.next, end, n - 1)
  {
    hide Usable;
    var rs := [r] + rest;
    assert forall i | 0 <= i < |rest| :: rest[i] == rs[i + 1];
  }

  lemma WalkStopsAt(ctx: Context, data: seq<byte>, d: Directory, depth: nat, ordinal: nat, central: nat,
                    names: set<seq<byte>>, spent: Spent)
    requires ordinal <= d.entries && !Continues(data, d, ordinal, central)
    ensures var stop := Walk(ctx, data, d, depth, ordinal, central, names, spent).stop;
      var next := ParseRecord(data, central, d.offset + d.size);
      && (stop.BadRecord? <==> ordinal < d.entries && next.None?)
      && (stop.BadExtra? <==> ordinal < d.entries && next.Some?)
      && (stop.BadExtra? ==> stop == BadExtra(next.value, IsDuplicate(next.value, names)) && !Usable(next.value))
  {
    hide ParseRecord, RecordValues, IsDuplicate;
  }

  /** The fate of a record follows from the data, its depth and what had been used of the budget before it. */
  ghost predicate Told(ctx: Context, data: seq<byte>, d: Directory, depth: nat, before: Spent, v: Visit) {
    v.values == RecordValues(v.record) && v.fate == Examine(ctx, data, d, v.record, v.values, depth, before).fate
  }

  lemma {:induction false} WalkTells(ctx: Context, data: seq<byte>, d: Directory, depth: nat, ordinal: nat, central: nat,
                                     names: set<seq<byte>>, spent: Spent, vs: seq<Visit>)
    requires ordinal <= d.entries && depth <= ctx.budget.maximumDepth
    requires vs == Walk(ctx, data, d, depth, ordinal, central, names, spent).visits
    ensures forall i | 0 <= i < |vs| :: Told(ctx, data, d, depth, Before(spent, vs, i), vs[i])
    decreases d.entries - ordinal
  {
    hide Walk, Examine, ParseRecord, RecordValues, IsDuplicate, AddName;
    if Continues(data, d, ordinal, central) {
      var r := ParseRecord(data, central, d.offset + d.size).value;
      var x := Examine(ctx, data, d, r, RecordValues(r), depth, spent);
      WalkGoesOn(ctx, data, d, depth, ordinal, central, names, spent);
      ExamineAccounted(ctx, data, d, r, RecordValues(r), IsDuplicate(r, names), depth, spent);
      var rest := Walk(ctx, data, d, depth, ordinal + 1, r.next, AddName(r, names), x.spent).visits;
      WalkTells(ctx, data, d, depth, ordinal + 1, r.next, AddName(r, names), x.spent, rest);
      var first := Visit(r, RecordValues(r), IsDuplicate(r, names), x.fate);
      forall i | 0 <= i < |vs|
        ensures Told(ctx, data, d, depth, Before(spent, vs, i), vs[i])
      {
        BeforeCons(spent, x.spent, first, rest, i);
      }
    } else {
      WalkStops(ctx, data, d, depth, ordinal, central, names, spent);
    }
  }

  lemma BeforeCons(spent: Spent, next: Spent, v: Visit, vs: seq<Visit>, i: nat)
    requires i <= |vs| + 1
    requires next == Spent(spent.entries + 1 + InsideEntries(v), spent.expanded + InsideExpanded(v))
    ensures i == 0 ==> Before(spent, [v] + vs, i) == spent
    ensures i > 0 ==> Before(spent, [v] + vs, i) == Before(next, vs, i - 1)
  {
    hide InsideEntries, InsideExpanded, VisitsEntries, VisitsExpanded;
    TotalsNil(0);
    if i > 0 {
      assert ([v] + vs)[..i] == [v] + vs[..i - 1];
      TotalsCons(v, vs[..i - 1], 0);
    } else {
      assert ([v] + vs)[..0] == [];
    }
  }

  // ---- one record ----------------------------------------------------------------------------

  /** What is left of the budget allows for one more record of these sizes. */
  predicate Affords(b: Budget, before: Spent, v: Values) {
    && (before.entries + 1) % U32 <= b.maximumEntries && v.uncompressed <= b.maximumEntryBytes
    && before.expanded + v.uncompressed <= b.maximumTotalBytes && v.uncompressed <= b.maximumRatio * v.compressed
  }

  lemma AffordsExact(b: Budget, before: Spent, v: Values)
    ensures Affords(b, before, v) <==> !ExceedsBudget(b, before.(entries := before.entries + 1), v)
  {
    hide RatioExceeded;
    RatioExact(v.uncompressed, v.compressed, b.maximumRatio);
  }

  datatype Unpacking = Unpacking(content: seq<byte>, end: nat)

  /** The content of an entry that is stored or deflated but not encrypted, and where its packed bytes end. */
  ghost function Unpacked(data: seq<byte>, d: Directory, r: Record): Option<Unpacking> {
    var v := RecordValues(r);
    match Payload(data, d, r, v)
    case None => None
    case Some(at) =>
      var packed, end := data[at..at + v.compressed], at + v.compressed;
      if And(r.flags, 0x2041) != 0 then None
      else if r.kind == 0 then if v.compressed == v.uncompressed then Some(Unpacking(packed, end)) else None
      else if r.kind == 8 then
        match Inflater.Inflate(packed, v.uncompressed)
        case None => None
        case Some(content) => Some(Unpacking(content, end))
      else None
  }

  /** The canonical name, or the name itself if it is not safe. */
  function KnownAs(r: Record): seq<byte> { if Safe(r.name) then Join(Clean(Split(r.name))) else r.name }

  ghost predicate DescriptorFails(data: seq<byte>, d: Directory, r: Record) {
    && Unpacked(data, d, r).Some? && And(r.flags, 0x0008) != 0
    && !DescriptorAgrees(data, d, r, RecordValues(r), Unpacked(data, d, r).value.end)
  }

  ghost predicate IsNested(data: seq<byte>, d: Directory, r: Record) {
    Unpacked(data, d, r).Some? && TakenForArchive(Unpacked(data, d, r).value.content, KnownAs(r))
  }

  ghost predicate Previewed(ctx: Context, data: seq<byte>, d: Directory, r: Record, f: Finding) {
    && Unpacked(data, d, r).Some?
    && var p := ctx.preview(Unpacked(data, d, r).value.content, KnownAs(r));
       match f
       case ExecutableEntry => p.embeddedExecutable
       case ActiveContentEntry => p.activeContent || p.automaticAction || p.unsafeDeserialization
       case _ => false
  }

  /** What an entry within the budget gives rise to. */
  ghost predicate EntryWarrants(ctx: Context, data: seq<byte>, d: Directory, depth: nat, r: Record, f: Finding) {
    match f
    case Malformed =>
      || And(r.flags, UNSUPPORTED) != 0 || Payload(data, d, r, RecordValues(r)).None?
      || ((r.kind == 0 || r.kind == 8) && Unpacked(data, d, r).None?) || DescriptorFails(data, d, r)
    case PathEscape => false
    case BombRisk => IsNested(data, d, r) && depth == ctx.budget.maximumDepth
    case EncryptedEntry => And(r.flags, 0x2041) != 0
    case UnsupportedCompression => r.kind != 0 && r.kind != 8
    case ExecutableEntry => NamedProgram(KnownAs(r)) || Previewed(ctx, data, d, r, ExecutableEntry)
    case ActiveContentEntry => NamedActive(KnownAs(r)) || Previewed(ctx, data, d, r, ActiveContentEntry)
    case NestedContainer => IsNested(data, d, r)
    case DuplicateName => false
    case CrcMismatch => Unpacked(data, d, r).Some? && (Crc32.Checksum(Unpacked(data, d, r).value.content) as int) != r.crc
    case BudgetExhausted => IsNested(data, d, r) && depth == ctx.budget.maximumDepth
    case HeaderMismatch => Payload(data, d, r, RecordValues(r)).None? || DescriptorFails(data, d, r)
  }

  /** What a name alone gives rise to. */
  ghost predicate NameWarrants(r: Record, duplicate: bool, f: Finding) {
    match f
    case Malformed => And(r.flags, 0x0800) != 0 && Utf8.Decode(r.name).None?
    case PathEscape => !Safe(r.name)
    case DuplicateName => duplicate
    case _ => false
  }

  /** What a record that can be visited gives rise to apart from its name. */
  ghost predicate RecordWarrants(ctx: Context, data: seq<byte>, d: Directory, depth: nat, before: Spent, r: Record, f: Finding) {
    if Affords(ctx.budget, before, RecordValues(r)) then EntryWarrants(ctx, data, d, depth, r, f)
    else f == BombRisk || f == BudgetExhausted
  }

  lemma NameShows(r: Record, duplicate: bool, f: Finding)
    ensures f in NameFindings(r, duplicate) <==> NameWarrants(r, duplicate, f)
  {
    hide And, FlagSet, Utf8.Decode, Safe;
    Utf8Mask(r.flags);
  }

  lemma UnpackedExact(data: seq<byte>, d: Directory, r: Record)
    ensures match Payload(data, d, r, RecordValues(r))
      case None => Unpacked(data, d, r).None?
      case Some(at) =>
        var end := at + RecordValues(r).compressed;
        match DecodedContent(r, RecordValues(r), data[at..end])
        case None => Unpacked(data, d, r).None?
        case Some(content) => Unpacked(data, d, r) == Some(Unpacking(content, end))
  {
    hide And, FlagSet, Inflater.Inflate, Payload, RecordValues;
    EncryptedMask(r.flags);
  }

  lemma RecordShows(r: Record, f: Finding)
    ensures f in RecordFindings(r) <==>
      match f
      case Malformed => And(r.flags, UNSUPPORTED) != 0
      case EncryptedEntry => And(r.flags, 0x2041) != 0
      case UnsupportedCompression => r.kind != 0 && r.kind != 8
      case ExecutableEntry => NamedProgram(KnownAs(r))
      case ActiveContentEntry => NamedActive(KnownAs(r))
      case _ => false
  {
    hide And, FlagSet, HasUnknownFlags, KnownAs, EffectiveName, NamedProgram, NamedActive, NamedArchive, ExtensionIn;
    EncryptedMask(r.flags);
    UnsupportedMask(r);
    KnownAsEffective(r);
    NamesExact(KnownAs(r));
  }

  lemma KnownAsEffective(r: Record)
    ensures KnownAs(r) == EffectiveName(r)
  {
    hide Safe, Split, Clean, Join;
  }

  /** Within the budget the fate is told by the payload and by what it unpacks to. */
  lemma FateIs(ctx: Context, data: seq<byte>, d: Directory, depth: nat, before: Spent, v: Visit)
    requires Told(ctx, data, d, depth, before, v) && depth <= ctx.budget.maximumDepth
    requires Affords(ctx.budget, before, v.values)
    ensures v.fate.BadLocal? <==> Payload(data, d, v.record, RecordValues(v.record)).None?
    ensures v.fate.Decoded? <==> Unpacked(data, d, v.record).Some?
    ensures !v.fate.OverBudget?
    ensures v.fate.Decoded? ==>
      var u := Unpacked(data, d, v.record).value;
      && v.fate.content == u.content && v.fate.descriptorBad == DescriptorFails(data, d, v.record)
      && v.fate.preview == ctx.preview(u.content, KnownAs(v.record))
      && (v.fate.inside.NotArchive? <==> !IsNested(data, d, v.record))
      && (v.fate.inside.TooDeep? <==> IsNested(data, d, v.record) && depth == ctx.budget.maximumDepth)
  {
    hide And, FlagSet, KnownAs, EffectiveName, Unpacked, DecodedContent, Payload, DescriptorAgrees, ExceedsBudget, Affords,
      IsArchive, TakenForArchive, Inspect, RecordValues;
    var r := v.record;
    AffordsExact(ctx.budget, before, v.values);
    UnpackedExact(data, d, r);
    KnownAsEffective(r);
    DescriptorMask(r.flags);
    if Unpacked(data, d, r).Some? {
      var content := Unpacked(data, d, r).value.content;
      TakenExact(content, KnownAs(r));
      EnterIs(ctx, content, KnownAs(r), depth, Spent(before.entries + 1, before.expanded + |content|));
    }
  }

  lemma EnterIs(ctx: Context, content: seq<byte>, name: seq<byte>, depth: nat, spent: Spent)
    ensures Enter(ctx, content, name, depth, spent).inside ==
      if !IsArchive(content, name) then NotArchive
      else if depth >= ctx.budget.maximumDepth then TooDeep
      else Archive(Inspect(ctx, content, spent, depth + 1).report)
  {
    hide Inspect, IsArchive;
  }

  lemma ContentShows(r: Record, content: seq<byte>, descriptorBad: bool, p: Preview, f: Finding)
    ensures f in ContentFindings(r, content, descriptorBad, p) <==>
      match f
      case CrcMismatch => (Crc32.Checksum(content) as int) != r.crc
      case HeaderMismatch => descriptorBad
      case Malformed => descriptorBad
      case ExecutableEntry => p.embeddedExecutable
      case ActiveContentEntry => p.activeContent || p.automaticAction || p.unsafeDeserialization
      case _ => false
  {
    hide Crc32.Checksum;
  }

  lemma FateShows(ctx: Context, data: seq<byte>, d: Directory, depth: nat, before: Spent, v: Visit, f: Finding)
    requires Told(ctx, data, d, depth, before, v) && depth <= ctx.budget.maximumDepth
    requires Affords(ctx.budget, before, v.values)
    ensures f in Shown(v) <==> f in NameFindings(v.record, v.duplicate) || EntryWarrants(ctx, data, d, depth, v.record, f)
  {
    hide And, KnownAs, NamedProgram, NamedActive, RecordFindings, NameFindings, ContentFindings, Unpacked, Payload,
      Affords, Crc32.Checksum, Told, DescriptorFails, IsNested, RecordValues;
    var r := v.record;
    FateIs(ctx, data, d, depth, before, v);
    RecordShows(r, f);
    if v.fate.Decoded? { ContentShows(r, v.fate.content, v.fate.descriptorBad, v.fate.preview, f); }
    BadDescriptor(data, d, r);
  }

  lemma BadDescriptor(data: seq<byte>, d: Directory, r: Record)
    ensures DescriptorFails(data, d, r) || IsNested(data, d, r) ==> Unpacked(data, d, r).Some?
    ensures Unpacked(data, d, r).Some? ==> Payload(data, d, r, RecordValues(r)).Some?
  {
    hide And, Payload, RecordValues, DescriptorAgrees, TakenForArchive;
  }

  lemma ValuesTold(ctx: Context, data: seq<byte>, d: Directory, depth: nat, before: Spent, v: Visit)
    requires Told(ctx, data, d, depth, before, v)
    ensures v.values == RecordValues(v.record)
    ensures !Affords(ctx.budget, before, v.values) ==> v.fate == OverBudget
  {
    hide Affords, ExceedsBudget, Payload, DecodedContent, Enter, RecordValues;
    AffordsExact(ctx.budget, before, v.values);
  }

  lemma OverBudgetShows(v: Visit, f: Finding)
    requires v.fate == OverBudget
    ensures f in Shown(v) <==> f in NameFindings(v.record, v.duplicate) || f == BombRisk || f == BudgetExhausted
  {
    hide NameFindings;
  }

  lemma VisitShows(ctx: Context, data: seq<byte>, d: Directory, depth: nat, before: Spent, v: Visit, f: Finding)
    requires Told(ctx, data, d, depth, before, v) && depth <= ctx.budget.maximumDepth
    ensures f in Shown(v) <==>
      NameWarrants(v.record, v.duplicate, f) || RecordWarrants(ctx, data, d, depth, before, v.record, f)
  {
    hide NameFindings, NameWarrants, EntryWarrants, Affords, RecordValues, Told, Shown;
    NameShows(v.record, v.duplicate, f);
    ValuesTold(ctx, data, d, depth, before, v);
    if Affords(ctx.budget, before, v.values) {
      FateShows(ctx, data, d, depth, before, v, f);
    } else {
      OverBudgetShows(v, f);
    }
  }

  // ---- duplicate names -----------------------------------------------------------------------

  /** An earlier record has the same parts in its name, up to the case of its letters. */
  predicate Repeated(rs: seq<Record>, i: nat)
    requires i < |rs|
  {
    Safe(rs[i].name) && exists j | 0 <= j < i :: Safe(rs[j].name) && Clean(Split(rs[j].name)) == Clean(Split(rs[i].name))
  }

  predicate SeenBefore(names: set<seq<byte>>, rs: seq<Record>, i: nat)
    requires i < |rs|
  {
    var c := Canonical(rs[i].name);
    c.Some? && (c.value in names || exists j | 0 <= j < i :: Canonical(rs[j].name) == c)
  }

  lemma RepeatedExact(rs: seq<Record>, i: nat)
    requires i < |rs|
    ensures Repeated(rs, i) <==> SeenBefore({}, rs, i)
  {
    hide Clean, Split, Join;
    forall j | 0 <= j < i && Safe(rs[j].name) && Safe(rs[i].name)
      ensures Canonical(rs[j].name) == Canonical(rs[i].name) <==> Clean(Split(rs[j].name)) == Clean(Split(rs[i].name))
    {
      DuplicatesExact(rs[j].name, rs[i].name);
    }
  }

  /** Which of the records a report speaks of it calls duplicates. */
  function Duplicates(r: Report): (ds: seq<bool>)
    ensures |ds| == |Reached(r)|
  {
    seq(|r.visits|, i requires 0 <= i < |r.visits| => r.visits[i].duplicate) +
    if r.stop.BadExtra? then [r.stop.duplicate] else []
  }

  lemma SeenCons(r: Record, rest: seq<Record>, names: set<seq<byte>>, i: nat)
    requires i < |rest|
    ensures SeenBefore(names, [r] + rest, i + 1) <==> SeenBefore(AddName(r, names), rest, i)
  {
    hide Canonical;
    var rs := [r] + rest;
    assert rs[i + 1] == rest[i] && rs[0] == r;
    assert forall j | 0 <= j < i :: rest[j] == rs[j + 1];
    assert forall j | 0 < j < i + 1 :: rs[j] == rest[j - 1];
  }

  lemma {:induction false} WalkDuplicates(ctx: Context, data: seq<byte>, d: Directory, depth: nat, ordinal: nat, central: nat,
                                          names: set<seq<byte>>, spent: Spent, r: Report)
    requires ordinal <= d.entries
    requires var w := Walk(ctx, data, d, depth, ordinal, central, names, spent); r == Report(depth, w.visits, w.stop)
    ensures forall i | 0 <= i < |Reached(r)| :: Duplicates(r)[i] <==> SeenBefore(names, Reached(r), i)
    decreases d.entries - ordinal
  {
    hide Walk, Examine, ParseRecord, RecordValues, SeenBefore, AddName, IsDuplicate;
    if Continues(data, d, ordinal, central) {
      var head := ParseRecord(data, central, d.offset + d.size).value;
      var x := Examine(ctx, data, d, head, RecordValues(head), depth, spent);
      WalkGoesOn(ctx, data, d, depth, ordinal, central, names, spent);
      var w := Walk(ctx, data, d, depth, ordinal + 1, head.next, AddName(head, names), x.spent);
      var rest := Report(depth, w.visits, w.stop);
      WalkDuplicates(ctx, data, d, depth, ordinal + 1, head.next, AddName(head, names), x.spent, rest);
      assert Reached(r) == [head] + Reached(rest) && Duplicates(r) == [IsDuplicate(head, names)] + Duplicates(rest);
      forall i | 0 <= i < |Reached(r)|
        ensures Duplicates(r)[i] <==> SeenBefore(names, Reached(r), i)
      {
        if i == 0 { FirstSeen(names, Reached(r)); } else { SeenCons(head, Reached(rest), names, i - 1); }
      }
    } else {
      WalkStops(ctx, data, d, depth, ordinal, central, names, spent);
      WalkStopsAt(ctx, data, d, depth, ordinal, central, names, spent);
      assert r == Report(depth, [], r.stop);
      OneDuplicate(depth, names, r.stop);
    }
  }

  lemma OneDuplicate(depth: nat, names: set<seq<byte>>, stop: Stop)
    requires stop.BadExtra? ==> stop.duplicate == IsDuplicate(stop.record, names)
    ensures var r := Report(depth, [], stop);
      forall i | 0 <= i < |Reached(r)| :: Duplicates(r)[i] <==> SeenBefore(names, Reached(r), i)
  {
    hide SeenBefore, IsDuplicate;
    var rs := Reached(Report(depth, [], stop));
    if rs != [] { FirstSeen(names, rs); }
  }

  lemma FirstSeen(names: set<seq<byte>>, rs: seq<Record>)
    requires rs != []
    ensures SeenBefore(names, rs, 0) <==> IsDuplicate(rs[0], names)
  {
    hide Canonical;
  }

  // ---- one place -----------------------------------------------------------------------------

  /** What is found at a place is what inspecting its data there finds. */
  ghost predicate Inspected(ctx: Context, q: Place) {
    q.depth <= ctx.budget.maximumDepth && q.report == Inspect(ctx, q.data, q.spent, q.depth).report
  }

  ghost predicate IsWalk(ctx: Context, q: Place, d: Directory) {
    var w := Walk(ctx, q.data, d, q.depth, 0, d.offset, {}, q.spent);
    q.report == Report(q.depth, w.visits, w.stop)
  }

  lemma PlaceIsWalk(ctx: Context, q: Place)
    requires Inspected(ctx, q)
    ensures match DirectoryOf(ctx.budget, q.data)
      case Some(d) => IsWalk(ctx, q, d)
      case None =>
        && q.report.visits == [] && !q.report.stop.BadExtra?
        && StopFindings(q.report.stop) == {Malformed} +
             When(Named(q.data).Some? && Named(q.data).value.entries > ctx.budget.maximumEntries, {BudgetExhausted})
  {
    hide Walk, LocateDirectory, EndOfDirectory;
    if |q.data| < 22 { assert Named(q.data).None? by { ShortHasNone(q.data); } }
  }

  lemma ShortHasNone(data: seq<byte>)
    requires |data| < 22
    ensures Named(data).None?
  {
  }

  /** The archive inside a record of an inspected place is inspected in its turn. */
  lemma InnerInspected(ctx: Context, p: Place, i: nat)
    requires Inspected(ctx, p) && i < |p.report.visits| && Nests(p.report.visits[i])
    ensures Inspected(ctx, Inner(p, i))
  {
    hide Inspect, Walk, Told, VisitsEntries, VisitsExpanded;
    PlaceIsWalk(ctx, p);
    var d, vs := DirectoryOf(ctx.budget, p.data).value, p.report.visits;
    WalkTells(ctx, p.data, d, p.depth, 0, d.offset, {}, p.spent, vs);
    NestedIsEntered(ctx, p.data, d, p.depth, Before(p.spent, vs, i), vs[i]);
  }

  lemma NestedIsEntered(ctx: Context, data: seq<byte>, d: Directory, depth: nat, before: Spent, v: Visit)
    requires Told(ctx, data, d, depth, before, v) && Nests(v)
    ensures depth < ctx.budget.maximumDepth
    ensures v.fate.inside.report == Inspect(ctx, v.fate.content,
      Spent(before.entries + 1, before.expanded + |v.fate.content|), depth + 1).report
  {
    hide Inspect, Payload, DecodedContent, ExceedsBudget, DescriptorAgrees, HasDescriptor, EffectiveName, RecordValues, Enter;
    EnterIs(ctx, v.fate.content, EffectiveName(v.record), depth,
            Spent(before.entries + 1, before.expanded + |v.fate.content|));
  }

  lemma {:induction false} WithinInspected(ctx: Context, p: Place, q: Place)
    requires Inspected(ctx, p) && Within(p, q)
    ensures Inspected(ctx, q)
    decreases p.report
  {
    hide Inspected;
    if p != q {
      var i :| 0 <= i < |p.report.visits| && InsideOf(p, i, p.report.visits[i], q);
      InnerInspected(ctx, p, i);
      WithinInspected(ctx, Inner(p, i), q);
    }
  }

  ghost predicate RecordWarrantsAt(ctx: Context, q: Place, d: Directory, i: nat, f: Finding)
    requires i < |q.report.visits|
  {
    RecordWarrants(ctx, q.data, d, q.depth, Before(q.spent, q.report.visits, i), q.report.visits[i].record, f)
  }

  /** What the data at a place gives rise to, archives inside it left aside. */
  ghost predicate Warranted(ctx: Context, q: Place, f: Finding) {
    var rs := Records(ctx.budget, q.data);
    match DirectoryOf(ctx.budget, q.data)
    case None =>
      || f == Malformed
      || (f == BudgetExhausted && Named(q.data).Some? && Named(q.data).value.entries > ctx.budget.maximumEntries)
    case Some(d) =>
      || (f == Malformed && !AllListed(rs, d.offset, d.offset + d.size, d.entries))
      || (exists i | 0 <= i < |rs| :: NameWarrants(rs[i], Repeated(rs, i), f))
      || (exists i | 0 <= i < |q.report.visits| :: RecordWarrantsAt(ctx, q, d, i, f))
  }

  lemma RecordsShow(ctx: Context, q: Place, d: Directory, f: Finding)
    requires q.depth <= ctx.budget.maximumDepth && IsWalk(ctx, q, d)
    ensures forall i | 0 <= i < |q.report.visits| :: var v := q.report.visits[i];
      f in Shown(v) <==> NameWarrants(v.record, v.duplicate, f) || RecordWarrantsAt(ctx, q, d, i, f)
  {
    hide Walk, Told, RecordWarrants, NameWarrants, Shown, Before;
    var vs := q.report.visits;
    WalkTells(ctx, q.data, d, q.depth, 0, d.offset, {}, q.spent, vs);
    forall i | 0 <= i < |vs|
      ensures f in Shown(vs[i]) <==> NameWarrants(vs[i].record, vs[i].duplicate, f) || RecordWarrantsAt(ctx, q, d, i, f)
    {
      VisitShows(ctx, q.data, d, q.depth, Before(q.spent, vs, i), vs[i], f);
    }
  }

  lemma NamesShow(ctx: Context, q: Place, d: Directory, f: Finding)
    requires IsWalk(ctx, q, d)
    ensures var rs, vs, stop := Reached(q.report), q.report.visits, q.report.stop;
      (exists i | 0 <= i < |rs| :: NameWarrants(rs[i], Repeated(rs, i), f)) <==>
        || (exists i | 0 <= i < |vs| :: NameWarrants(vs[i].record, vs[i].duplicate, f))
        || (stop.BadExtra? && NameWarrants(stop.record, stop.duplicate, f))
  {
    hide Walk, NameWarrants, Repeated, SeenBefore;
    var rs, ds, vs := Reached(q.report), Duplicates(q.report), q.report.visits;
    WalkDuplicates(ctx, q.data, d, q.depth, 0, d.offset, {}, q.spent, q.report);
    forall i | 0 <= i < |rs|
      ensures ds[i] <==> Repeated(rs, i)
    {
      RepeatedExact(rs, i);
    }
    assert forall i | 0 <= i < |vs| :: rs[i] == vs[i].record && ds[i] == vs[i].duplicate;
    if q.report.stop.BadExtra? { assert rs[|vs|] == q.report.stop.record && ds[|vs|] == q.report.stop.duplicate; }
  }

  lemma StopShows(stop: Stop, f: Finding)
    requires stop.Complete? || stop.BadRecord? || stop.BadExtra?
    ensures f in StopFindings(stop) <==>
      (f == Malformed && stop != Complete(true)) || (stop.BadExtra? && NameWarrants(stop.record, stop.duplicate, f))
  {
    hide NameWarrants, NameFindings;
    if stop.BadExtra? { NameShows(stop.record, stop.duplicate, f); }
  }

  lemma WalkShows(ctx: Context, q: Place, d: Directory, f: Finding)
    requires q.depth <= ctx.budget.maximumDepth && DirectoryOf(ctx.budget, q.data) == Some(d) && IsWalk(ctx, q, d)
    ensures Records(ctx.budget, q.data) == Reached(q.report)
    ensures Raised(q.report, f) <==> Warranted(ctx, q, f)
  {
    hide Walk, RecordWarrantsAt, NameWarrants, Repeated, Shown, AllListed, Listed, StopFindings, Reached, DirectoryOf;
    WalkLists(ctx, q.data, d, q.depth, 0, d.offset, {}, q.spent, q.report);
    RecordsShow(ctx, q, d, f);
    NamesShow(ctx, q, d, f);
    StopShows(q.report.stop, f);
  }

  lemma PlaceShows(ctx: Context, q: Place, f: Finding)
    requires Inspected(ctx, q)
    ensures Raised(q.report, f) <==> Warranted(ctx, q, f)
  {
    hide IsWalk, Inspect, StopFindings, Shown;
    PlaceIsWalk(ctx, q);
    if DirectoryOf(ctx.budget, q.data).Some? {
      WalkShows(ctx, q, DirectoryOf(ctx.budget, q.data).value, f);
    }
  }

  // ---- the whole inspection ------------------------------------------------------------------

  ghost function Outermost(ctx: Context, data: seq<byte>): Place {
    Place(data, 0, Spent(0, 0), Inspect(ctx, data, Spent(0, 0), 0).report)
  }

  /** What the entry point reports. */
  ghost predicate Reports(ctx: Context, data: seq<byte>, f: Finding) {
    f in Summarize(Inspect(ctx, data, Spent(0, 0), 0).report).findings
  }

  /** A finding is in the summary if and only if the data at some place, of any depth, gives rise to it. */
  lemma FindingsExact(ctx: Context, data: seq<byte>, f: Finding)
    ensures Reports(ctx, data, f) <==> exists q :: Within(Outermost(ctx, data), q) && Warranted(ctx, q, f)
  {
    hide Inspect, Raised, Warranted, Within, Findings;
    var top := Outermost(ctx, data);
    RaisedSomewhere(top, f);
    forall q | Within(top, q)
      ensures Raised(q.report, f) <==> Warranted(ctx, q, f)
    {
      WithinInspected(ctx, top, q);
      PlaceShows(ctx, q, f);
    }
  }

  // ---- single findings -----------------------------------------------------------------------

  /** A record at `q`, even one that cannot be visited, has a name that is not safe. */
  ghost predicate EscapesAt(ctx: Context, q: Place) {
    exists i | 0 <= i < |Records(ctx.budget, q.data)| :: !Safe(Records(ctx.budget, q.data)[i].name)
  }

  /** Two records at `q`, even ones that cannot be visited, share a name up to separators and the case of letters. */
  ghost predicate RepeatsAt(ctx: Context, q: Place) {
    exists i | 0 <= i < |Records(ctx.budget, q.data)| :: Repeated(Records(ctx.budget, q.data), i)
  }

  /** The `i`-th record at `q` is within the budget that was left when it was reached. */
  ghost predicate AffordedAt(ctx: Context, q: Place, i: nat)
    requires i < |q.report.visits|
  {
    Affords(ctx.budget, Before(q.spent, q.report.visits, i), RecordValues(q.report.visits[i].record))
  }

  ghost predicate EncryptedAt(ctx: Context, q: Place) {
    exists i | 0 <= i < |q.report.visits| :: AffordedAt(ctx, q, i) && And(q.report.visits[i].record.flags, 0x2041) != 0
  }

  ghost predicate MismatchAt(ctx: Context, q: Place, d: Directory, i: nat)
    requires i < |q.report.visits|
  {
    var r := q.report.visits[i].record;
    AffordedAt(ctx, q, i) && (Payload(q.data, d, r, RecordValues(r)).None? || DescriptorFails(q.data, d, r))
  }

  ghost predicate MismatchesAt(ctx: Context, q: Place) {
    && DirectoryOf(ctx.budget, q.data).Some?
    && exists i | 0 <= i < |q.report.visits| :: MismatchAt(ctx, q, DirectoryOf(ctx.budget, q.data).value, i)
  }

  /** The record exceeds the budget, or it holds an archive and the depth is used up. */
  ghost predicate ExhaustAt(ctx: Context, q: Place, d: Directory, i: nat)
    requires i < |q.report.visits|
  {
    !AffordedAt(ctx, q, i) || (IsNested(q.data, d, q.report.visits[i].record) && q.depth == ctx.budget.maximumDepth)
  }

  ghost predicate ExhaustsAt(ctx: Context, q: Place) {
    match DirectoryOf(ctx.budget, q.data)
    case None => Named(q.data).Some? && Named(q.data).value.entries > ctx.budget.maximumEntries
    case Some(d) => exists i | 0 <= i < |q.report.visits| :: ExhaustAt(ctx, q, d, i)
  }

  lemma NamesWarranted(ctx: Context, q: Place)
    ensures Warranted(ctx, q, PathEscape) <==> EscapesAt(ctx, q)
    ensures Warranted(ctx, q, DuplicateName) <==> RepeatsAt(ctx, q)
  {
    hide DirectoryOf, Safe, AllListed, Repeated, Affords, RecordValues, Listed, Before;
    if DirectoryOf(ctx.budget, q.data).Some? {
      var d, rs := DirectoryOf(ctx.budget, q.data).value, Records(ctx.budget, q.data);
      assert forall i | 0 <= i < |q.report.visits| ::
        !RecordWarrantsAt(ctx, q, d, i, PathEscape) && !RecordWarrantsAt(ctx, q, d, i, DuplicateName);
      assert forall i | 0 <= i < |rs| :: NameWarrants(rs[i], Repeated(rs, i), PathEscape) <==> !Safe(rs[i].name);
      assert forall i | 0 <= i < |rs| :: NameWarrants(rs[i], Repeated(rs, i), DuplicateName) <==> Repeated(rs, i);
    }
  }

  lemma RecordsWarranted(ctx: Context, q: Place)
    ensures DirectoryOf(ctx.budget, q.data).Some? ==> (Warranted(ctx, q, EncryptedEntry) <==> EncryptedAt(ctx, q))
    ensures DirectoryOf(ctx.budget, q.data).None? ==> !Warranted(ctx, q, EncryptedEntry)
    ensures Warranted(ctx, q, HeaderMismatch) <==> MismatchesAt(ctx, q)
    ensures Warranted(ctx, q, BudgetExhausted) <==> ExhaustsAt(ctx, q)
  {
    hide DirectoryOf, Safe, AllListed, Repeated, Affords, RecordValues, Listed, Before, And, Payload, DescriptorFails, IsNested,
      Unpacked, Utf8.Decode;
    if DirectoryOf(ctx.budget, q.data).Some? {
      var d, rs := DirectoryOf(ctx.budget, q.data).value, Records(ctx.budget, q.data);
      forall i | 0 <= i < |rs|
        ensures forall f | f == EncryptedEntry || f == HeaderMismatch || f == BudgetExhausted ::
          !NameWarrants(rs[i], Repeated(rs, i), f)
      {
      }
      forall i | 0 <= i < |q.report.visits|
        ensures RecordWarrantsAt(ctx, q, d, i, EncryptedEntry) <==>
          AffordedAt(ctx, q, i) && And(q.report.visits[i].record.flags, 0x2041) != 0
        ensures RecordWarrantsAt(ctx, q, d, i, HeaderMismatch) <==> MismatchAt(ctx, q, d, i)
        ensures RecordWarrantsAt(ctx, q, d, i, BudgetExhausted) <==> ExhaustAt(ctx, q, d, i)
      {
      }
    }
  }

  lemma PathEscapeExact(ctx: Context, data: seq<byte>)
    ensures Reports(ctx, data, PathEscape) <==> exists q :: Within(Outermost(ctx, data), q) && EscapesAt(ctx, q)
  {
    hide Within, Outermost, Warranted, Reports, EscapesAt, RepeatsAt;
    FindingsExact(ctx, data, PathEscape);
    forall q { NamesWarranted(ctx, q); }
  }

  lemma DuplicateNameExact(ctx: Context, data: seq<byte>)
    ensures Reports(ctx, data, DuplicateName) <==> exists q :: Within(Outermost(ctx, data), q) && RepeatsAt(ctx, q)
  {
    hide Within, Outermost, Warranted, Reports, EscapesAt, RepeatsAt;
    FindingsExact(ctx, data, DuplicateName);
    forall q { NamesWarranted(ctx, q); }
  }

  lemma EncryptedEntryExact(ctx: Context, data: seq<byte>)
    ensures Reports(ctx, data, EncryptedEntry) <==> exists q :: Within(Outermost(ctx, data), q) && EncryptedAt(ctx, q)
  {
    hide Within, Outermost, Warranted, Reports, EncryptedAt, MismatchesAt, ExhaustsAt;
    FindingsExact(ctx, data, EncryptedEntry);
    forall q | Within(Outermost(ctx, data), q)
      ensures Warranted(ctx, q, EncryptedEntry) <==> EncryptedAt(ctx, q)
    {
      RecordsWarranted(ctx, q);
      OutermostInspected(ctx, data, q);
      NothingVisited(ctx, q);
    }
  }

  lemma OutermostInspected(ctx: Context, data: seq<byte>, q: Place)
    requires Within(Outermost(ctx, data), q)
    ensures Inspected(ctx, q)
  {
    hide Inspect, Within;
    WithinInspected(ctx, Outermost(ctx, data), q);
  }

  lemma NothingVisited(ctx: Context, q: Place)
    requires Inspected(ctx, q)
    ensures DirectoryOf(ctx.budget, q.data).None? ==> !EncryptedAt(ctx, q)
  {
    hide Inspected, DirectoryOf, AffordedAt, IsWalk, StopFindings;
    PlaceIsWalk(ctx, q);
  }

  lemma HeaderMismatchExact(ctx: Context, data: seq<byte>)
    ensures Reports(ctx, data, HeaderMismatch) <==> exists q :: Within(Outermost(ctx, data), q) && MismatchesAt(ctx, q)
  {
    hide Within, Outermost, Warranted, Reports, EncryptedAt, MismatchesAt, ExhaustsAt;
    FindingsExact(ctx, data, HeaderMismatch);
    forall q { RecordsWarranted(ctx, q); }
  }

  lemma BudgetExhaustedExact(ctx: Context, data: seq<byte>)
    ensures Reports(ctx, data, BudgetExhausted) <==> exists q :: Within(Outermost(ctx, data), q) && ExhaustsAt(ctx, q)
  {
    hide Within, Outermost, Warranted, Reports, EncryptedAt, MismatchesAt, ExhaustsAt;
    FindingsExact(ctx, data, BudgetExhausted);
    forall q { RecordsWarranted(ctx, q); }
  }

  // ---- which archives are entered ------------------------------------------------------------

  /** The archive in a record is entered if it is within the budget and the depth is not used up, and only then. */
  lemma InnerExact(ctx: Context, p: Place, i: nat)
    requires Inspected(ctx, p) && i < |p.report.visits|
    ensures DirectoryOf(ctx.budget, p.data).Some?
    ensures var d, r := DirectoryOf(ctx.budget, p.data).value, p.report.visits[i].record;
      && (Nests(p.report.visits[i]) <==> AffordedAt(ctx, p, i) && IsNested(p.data, d, r) && p.depth < ctx.budget.maximumDepth)
      && (Nests(p.report.visits[i]) ==> Inner(p, i).data == Unpacked(p.data, d, r).value.content)
  {
    hide Inspect, Walk, Told, Before, DirectoryOf, Unpacked, Payload, IsNested, DescriptorFails, Affords, RecordValues, KnownAs,
      StopFindings;
    PlaceIsWalk(ctx, p);
    var d, vs := DirectoryOf(ctx.budget, p.data).value, p.report.visits;
    WalkTells(ctx, p.data, d, p.depth, 0, d.offset, {}, p.spent, vs);
    var before, v := Before(p.spent, vs, i), vs[i];
    ValuesTold(ctx, p.data, d, p.depth, before, v);
    if Affords(ctx.budget, before, v.values) {
      FateIs(ctx, p.data, d, p.depth, before, v);
      NestedUnpacks(p.data, d, v.record);
    }
  }

  lemma NestedUnpacks(data: seq<byte>, d: Directory, r: Record)
    ensures IsNested(data, d, r) ==> Unpacked(data, d, r).Some?
  {
    hide Unpacked, TakenForArchive, KnownAs;
  }

  lemma {:induction false} DeepestVisit(vs: seq<Visit>, depth: nat)
    ensures VisitsDepth(vs, depth) >= depth && forall i | 0 <= i < |vs| :: VisitsDepth(vs, depth) >= InsideDepth(vs[i])
    ensures VisitsDepth(vs, depth) == depth ||
      exists i | 0 <= i < |vs| :: Nests(vs[i]) && VisitsDepth(vs, depth) == InsideDepth(vs[i])
    decreases |vs|
  {
    hide Depth;
    if vs != [] {
      var front := vs[..|vs| - 1];
      DeepestVisit(front, depth);
      assert forall i | 0 <= i < |front| :: front[i] == vs[i];
    }
  }

  lemma InspectedDepth(ctx: Context, p: Place)
    requires Inspected(ctx, p)
    ensures p.report.depth == p.depth
  {
    hide Inspect;
    InspectAccounted(ctx, p.data, p.spent, p.depth);
  }

  lemma {:induction false} DepthBound(ctx: Context, p: Place, q: Place)
    requires Inspected(ctx, p) && Within(p, q)
    ensures q.depth <= Depth(p.report)
    decreases p.report
  {
    hide Inspected;
    DeepestVisit(p.report.visits, p.report.depth);
    InspectedDepth(ctx, p);
    if p != q {
      var i :| 0 <= i < |p.report.visits| && InsideOf(p, i, p.report.visits[i], q);
      InnerInspected(ctx, p, i);
      DepthBound(ctx, Inner(p, i), q);
    }
  }

  lemma {:induction false} DepthReached(ctx: Context, p: Place) returns (deepest: Place)
    requires Inspected(ctx, p)
    ensures Within(p, deepest) && deepest.depth == Depth(p.report)
    decreases p.report
  {
    hide Inspected;
    var vs := p.report.visits;
    DeepestVisit(vs, p.report.depth);
    InspectedDepth(ctx, p);
    deepest := p;
    if Depth(p.report) != p.report.depth {
      var i :| 0 <= i < |vs| && Nests(vs[i]) && VisitsDepth(vs, p.report.depth) == InsideDepth(vs[i]);
      InnerInspected(ctx, p, i);
      deepest := DepthReached(ctx, Inner(p, i));
      assert InsideOf(p, i, vs[i], deepest);
    }
  }

  /** The reported depth is the greatest at which an archive was entered. */
  lemma DepthExact(ctx: Context, data: seq<byte>)
    ensures var top, n := Outermost(ctx, data), Summarize(Inspect(ctx, data, Spent(0, 0), 0).report).depth;
      (forall q | Within(top, q) :: q.depth <= n) && exists q :: Within(top, q) && q.depth == n
  {
    hide Inspect, Within, Depth;
    var top := Outermost(ctx, data);
    forall q | Within(top, q)
      ensures q.depth <= Depth(top.report)
    {
      DepthBound(ctx, top, q);
    }
    var deepest := DepthReached(ctx, top);
  }

  // ---- what is counted -----------------------------------------------------------------------

  /** All visits of a tree, those of a nested archive right behind the record that holds it. */
  function AllVisits(vs: seq<Visit>): seq<Visit>
    decreases vs
  {
    if vs == [] then []
    else
      var v := vs[|vs| - 1];
      AllVisits(vs[..|vs| - 1]) + [v] + VisitsInside(v)
  }

  function VisitsInside(v: Visit): seq<Visit>
    decreases v
  {
    if Nests(v) then AllVisits(v.fate.inside.report.visits) else []
  }

  /** The contents of those that were decoded. */
  function Contents(vs: seq<Visit>): seq<seq<byte>> {
    if vs == [] then []
    else
      var v := vs[|vs| - 1];
      Contents(vs[..|vs| - 1]) + if v.fate.Decoded? then [v.fate.content] else []
  }

  function TotalSize(cs: seq<seq<byte>>): nat { if cs == [] then 0 else TotalSize(cs[..|cs| - 1]) + |cs[|cs| - 1]| }

  lemma {:induction false} ContentsConcat(a: seq<Visit>, b: seq<Visit>)
    ensures Contents(a + b) == Contents(a) + Contents(b)
  {
    if b == [] {
      assert a + b == a && Contents(a) + [] == Contents(a);
    } else {
      ContentsConcat(a, b[..|b| - 1]);
      assert (a + b)[..|a + b| - 1] == a + b[..|b| - 1];
    }
  }

  lemma {:induction false} SizeConcat(a: seq<seq<byte>>, b: seq<seq<byte>>)
    ensures TotalSize(a + b) == TotalSize(a) + TotalSize(b)
  {
    if b == [] {
      assert a + b == a;
    } else {
      SizeConcat(a, b[..|b| - 1]);
      assert (a + b)[..|a + b| - 1] == a + b[..|b| - 1];
    }
  }

  lemma OneContent(v: Visit)
    ensures Contents([v]) == if v.fate.Decoded? then [v.fate.content] else []
    ensures TotalSize(Contents([v])) == if v.fate.Decoded? then |v.fate.content| else 0
  {
    assert [v][..0] == [];
    if v.fate.Decoded? { assert [v.fate.content][..0] == []; }
  }

  lemma {:induction false} VisitsCounted(vs: seq<Visit>)
    ensures VisitsEntries(vs) == |AllVisits(vs)| && VisitsInspected(vs) == |Contents(AllVisits(vs))|
    ensures VisitsExpanded(vs) == TotalSize(Contents(AllVisits(vs)))
    decreases vs
  {
    if vs != [] {
      var front, v := vs[..|vs| - 1], vs[|vs| - 1];
      VisitsCounted(front);
      InsideCounted(v);
      hide VisitsInside, InsideEntries, InsideInspected, Contents, TotalSize;
      var all, own, inner := AllVisits(front), [v], VisitsInside(v);
      ContentsConcat(all + own, inner);
      ContentsConcat(all, own);
      SizeConcat(Contents(all) + Contents(own), Contents(inner));
      SizeConcat(Contents(all), Contents(own));
      OneContent(v);
    }
  }

  lemma {:induction false} InsideCounted(v: Visit)
    ensures InsideEntries(v) == |VisitsInside(v)| && InsideInspected(v) == |Contents(VisitsInside(v))|
    ensures InsideExpanded(v) == (if v.fate.Decoded? then |v.fate.content| else 0) + TotalSize(Contents(VisitsInside(v)))
    decreases v
  {
    if Nests(v) { VisitsCounted(v.fate.inside.report.visits); }
  }

  /** Exactly the records reached at any level are counted as entries, those that were decoded as inspected. */
  lemma CountersExact(ctx: Context, data: seq<byte>)
    ensures var o := Inspect(ctx, data, Spent(0, 0), 0);
      var all, s := AllVisits(o.report.visits), Summarize(o.report);
      && s.entries == |all| % 0x1_0000_0000 && s.inspected == |Contents(all)| % 0x1_0000_0000
      && o.spent == Spent(|all|, TotalSize(Contents(all)))
  {
    hide Inspect, AllVisits, Contents, TotalSize, VisitsEntries, VisitsInspected, VisitsExpanded;
    var o := Inspect(ctx, data, Spent(0, 0), 0);
    VisitsCounted(o.report.visits);
    InspectAccounted(ctx, data, Spent(0, 0), 0);
  }

  /** A record is decoded if and only if it is within the budget and can be unpacked, and to what it unpacks to. */
  lemma DecodedExact(ctx: Context, p: Place, i: nat)
    requires Inspected(ctx, p) && i < |p.report.visits|
    ensures DirectoryOf(ctx.budget, p.data).Some?
    ensures var d, v := DirectoryOf(ctx.budget, p.data).value, p.report.visits[i];
      && (v.fate.Decoded? <==> AffordedAt(ctx, p, i) && Unpacked(p.data, d, v.record).Some?)
      && (v.fate.Decoded? ==> v.fate.content == Unpacked(p.data, d, v.record).value.content)
  {
    hide Inspect, Walk, Told, Before, DirectoryOf, Unpacked, Payload, IsNested, DescriptorFails, Affords, RecordValues, KnownAs,
      StopFindings;
    PlaceIsWalk(ctx, p);
    var d, vs := DirectoryOf(ctx.budget, p.data).value, p.report.visits;
    WalkTells(ctx, p.data, d, p.depth, 0, d.offset, {}, p.spent, vs);
    var before, v := Before(p.spent, vs, i), vs[i];
    ValuesTold(ctx, p.data, d, p.depth, before, v);
    if Affords(ctx.budget, before, v.values) { FateIs(ctx, p.data, d, p.depth, before, v); }
  }
}
