/**
 The recursive archive inspection. `Inspect` gives its report and the budget it leaves as a function of the
 data; the methods work as the source does, updating one summary and one budget shared by all nested archives.
 */
module ZipWalk {
  import opened Bytes
  import opened ZipFormat
  import opened ZipReport
  import opened EntryNames
  import Utf8
  import Crc32
  import Inflater

  datatype Budget = Budget(maximumEntries: u32, maximumDepth: u32, maximumEntryBytes: u64,
                           maximumTotalBytes: u64, maximumRatio: u32)

  /** What has been used of the budget: records counted and bytes decoded, over all nested archives. */
  datatype Spent = Spent(entries: nat, expanded: nat)

  datatype Context = Context(budget: Budget, preview: (seq<byte>, seq<byte>) -> Preview)

  // ---- the checks of one entry ---------------------------------------------------------------

  predicate RatioExceeded(uncompressed: nat, compressed: nat, ratio: nat) {
    if compressed == 0 then uncompressed != 0
    else
      || uncompressed / compressed > ratio
      || (uncompressed / compressed == ratio && uncompressed % compressed != 0)
  }

  /** The source counts records in 32 bits, so it compares their number modulo 2^32. */
  predicate ExceedsBudget(b: Budget, s: Spent, v: Values) {
    || s.entries % U32 > b.maximumEntries || v.uncompressed > b.maximumEntryBytes
    || s.expanded > b.maximumTotalBytes || v.uncompressed > b.maximumTotalBytes - s.expanded
    || RatioExceeded(v.uncompressed, v.compressed, b.maximumRatio)
  }

  /** The content of an entry, for the methods and entries that can be decoded. */
  ghost function DecodedContent(r: Record, v: Values, payload: seq<byte>): Option<seq<byte>> {
    if IsEncrypted(r) then None
    else if r.kind == 0 && v.compressed == v.uncompressed then Some(payload)
    else if r.kind == 8 then Inflater.Inflate(payload, v.uncompressed)
    else None
  }

  lemma DecodedSize(r: Record, v: Values, payload: seq<byte>)
    requires |payload| == v.compressed && DecodedContent(r, v, payload).Some?
    ensures |DecodedContent(r, v, payload).value| == v.uncompressed
  {
  }

  // ---- what the inspection finds -------------------------------------------------------------

  datatype Outcome = Outcome(report: Report, spent: Spent)
  datatype Examined = Examined(fate: Fate, spent: Spent)
  datatype Entered = Entered(inside: Inside, spent: Spent)
  datatype Walked = Walked(visits: seq<Visit>, stop: Stop, spent: Spent)

  function Levels(b: Budget, depth: nat): nat {
    if depth > b.maximumDepth then 0 else b.maximumDepth + 1 - depth
  }

  ghost function Inspect(ctx: Context, data: seq<byte>, spent: Spent, depth: nat): Outcome
    decreases Levels(ctx.budget, depth), 3, 0
  {
    if depth > ctx.budget.maximumDepth || |data| < 22 then
      Outcome(Report(depth, [], Refused(depth > ctx.budget.maximumDepth, |data| < 22)), spent)
    else
      match EndOfDirectory(data)
      case None => Outcome(Report(depth, [], NoDirectory), spent)
      case Some(end) =>
        LastEndIsLast(data, Earliest(data), |data| - 22);
        match LocateDirectory(data, end)
        case None => Outcome(Report(depth, [], BadDirectory(false)), spent)
        case Some(d) =>
          if !DirectoryFits(ctx.budget, d, end) then
            Outcome(Report(depth, [], BadDirectory(d.entries > ctx.budget.maximumEntries)), spent)
          else
            var w := Walk(ctx, data, d, depth, 0, d.offset, {}, spent);
            Outcome(Report(depth, w.visits, w.stop), w.spent)
  }

  predicate DirectoryFits(b: Budget, d: Directory, end: nat) {
    d.entries <= b.maximumEntries && d.offset <= end && d.size <= end - d.offset
  }

  /** The directory records from `central` on, `ordinal` of them already visited under the names `names`. */
  ghost function Walk(ctx: Context, data: seq<byte>, d: Directory, depth: nat, ordinal: nat, central: nat,
                      names: set<seq<byte>>, spent: Spent): Walked
    requires ordinal <= d.entries
    decreases Levels(ctx.budget, depth), 2, d.entries - ordinal
  {
    if ordinal == d.entries then Walked([], Complete(central == d.offset + d.size), spent)
    else
      match ParseRecord(data, central, d.offset + d.size)
      case None => Walked([], BadRecord, spent)
      case Some(r) =>
        var duplicate := IsDuplicate(r, names);
        var v := RecordValues(r);
        if !v.valid || v.disk != 0 then Walked([], BadExtra(r, duplicate), spent)
        else
          var x := Examine(ctx, data, d, r, v, depth, spent);
          var rest := Walk(ctx, data, d, depth, ordinal + 1, r.next, AddName(r, names), x.spent);
          Walked([Visit(r, v, duplicate, x.fate)] + rest.visits, rest.stop, rest.spent)
  }

  function RecordValues(r: Record): Values {
    FromExtra(r.extra, 0, Values(r.uncompressed32, r.compressed32, r.local32, r.disk, true))
  }

  predicate IsDuplicate(r: Record, names: set<seq<byte>>) {
    Canonical(r.name).Some? && Canonical(r.name).value in names
  }

  function AddName(r: Record, names: set<seq<byte>>): set<seq<byte>> {
    match Canonical(r.name)
    case None => names
    case Some(c) => names + {c}
  }

  ghost function Examine(ctx: Context, data: seq<byte>, d: Directory, r: Record, v: Values, depth: nat, before: Spent): Examined
    decreases Levels(ctx.budget, depth), 1, 0
  {
    var spent := before.(entries := before.entries + 1);
    if ExceedsBudget(ctx.budget, spent, v) then Examined(OverBudget, spent)
    else
      match Payload(data, d, r, v)
      case None => Examined(BadLocal, spent)
      case Some(p) =>
        match DecodedContent(r, v, data[p..p + v.compressed])
        case None => Examined(Undecoded, spent)
        case Some(content) =>
          var name := EffectiveName(r);
          var x := Enter(ctx, content, name, depth, spent.(expanded := spent.expanded + |content|));
          var descriptorBad := HasDescriptor(r) && !DescriptorAgrees(data, d, r, v, p + v.compressed);
          Examined(Decoded(content, descriptorBad, ctx.preview(content, name), x.inside), x.spent)
  }

  /** Content that is an archive is inspected one level deeper, on the same budget. */
  ghost function Enter(ctx: Context, content: seq<byte>, name: seq<byte>, depth: nat, spent: Spent): Entered
    decreases Levels(ctx.budget, depth), 0, 0
  {
    if !IsArchive(content, name) then Entered(NotArchive, spent)
    else if depth >= ctx.budget.maximumDepth then Entered(TooDeep, spent)
    else
      var o := Inspect(ctx, content, spent, depth + 1);
      Entered(Archive(o.report), o.spent)
  }

  // ---- the inspector -------------------------------------------------------------------------

  /** The one budget that all nested archives draw on. The true number of records is `counted`. */
  class SharedBudget {
    const limits: Budget
    var entries: u32
    var expanded: u64
    ghost var counted: nat

    ghost predicate Valid()
      reads this
    {
      entries == counted % U32
    }

    constructor (limits: Budget)
      ensures Valid() && this.limits == limits && Used() == Spent(0, 0)
    {
      this.limits := limits;
      entries, expanded, counted := 0, 0, 0;
    }

    ghost function Used(): Spent
      reads this
    {
      Spent(counted, expanded)
    }

    /** The test as the source makes it, on its own counter. */
    predicate Exceeds(v: Values)
      reads this
    {
      || entries > limits.maximumEntries || v.uncompressed > limits.maximumEntryBytes
      || expanded > limits.maximumTotalBytes || v.uncompressed > limits.maximumTotalBytes - expanded
      || RatioExceeded(v.uncompressed, v.compressed, limits.maximumRatio)
    }

    lemma ExceedsExact(v: Values)
      requires Valid()
      ensures Exceeds(v) <==> ExceedsBudget(limits, Used(), v)
      ensures !Exceeds(v) ==> expanded + v.uncompressed <= limits.maximumTotalBytes
    {
      hide RatioExceeded;
    }
  }

  /** A 32-bit counter moves on by `n`. */
  function Plus(counter: u32, n: nat): u32 { (counter + n) % U32 }

  lemma PlusTwice(counter: u32, m: nat, n: nat)
    ensures Plus(Plus(counter, m), n) == Plus(counter, m + n)
  {
  }

  lemma PlusWrapped(counter: u32, n: nat)
    ensures Plus(counter, n % U32) == Plus(counter, n)
  {
  }

  lemma PlusOne(n: nat)
    ensures Plus(n % U32, 1) == (n + 1) % U32
  {
  }

  lemma PlusNothing(counter: u32)
    ensures Plus(counter, 0) == counter
  {
  }

  /** The summary of an archive whose records so far gave `visits`. */
  function Partial(visits: seq<Visit>, depth: nat): Summary {
    Summary(VisitsEntries(visits) % U32, VisitsInspected(visits) % U32, VisitsDepth(visits, depth),
            VisitsBytes(visits, true), VisitsBytes(visits, false), VisitsFindings(visits))
  }

  /** One visit's contribution. */
  function AddVisit(s: Summary, v: Visit): Summary
    requires s.compressed < U64 && s.uncompressed < U64
  {
    Summary(Plus(s.entries, 1 + InsideEntries(v)),
            Plus(s.inspected, (if v.fate.Decoded? then 1 else 0) + InsideInspected(v)),
            Max(s.depth, InsideDepth(v)), AddBytes(s.compressed, v, true), AddBytes(s.uncompressed, v, false),
            s.findings + VisitFindings(v))
  }

  lemma PartialSnoc(visits: seq<Visit>, v: Visit, depth: nat)
    ensures Partial(visits + [v], depth) == AddVisit(Partial(visits, depth), v)
  {
    hide AddBytes, VisitFindings, InsideEntries, InsideInspected, InsideDepth;
    assert (visits + [v])[..|visits|] == visits;
  }

  /** Adds a nested summary: counters are added, every finding is kept. */
  function MergeNested(target: Summary, nested: Summary): Summary {
    Summary(Plus(target.entries, nested.entries), Plus(target.inspected, nested.inspected), Max(target.depth, nested.depth),
            Wrap(target.compressed, nested.compressed), Wrap(target.uncompressed, nested.uncompressed),
            target.findings + {NestedContainer} + nested.findings)
  }

  method Enters(content: seq<byte>, name: seq<byte>, start: Summary, shared: SharedBudget, ghost ctx: Context,
                preview: (seq<byte>, seq<byte>) -> Preview, depth: nat)
    returns (summary: Summary, ghost inside: Inside)
    requires shared.Valid() && ctx == Context(shared.limits, preview)
    modifies shared
    ensures shared.Valid()
    ensures Entered(inside, shared.Used()) == Enter(ctx, content, name, depth, old(shared.Used()))
    ensures summary == match inside
      case NotArchive => start
      case TooDeep => start.(findings := start.findings + {NestedContainer, BudgetExhausted, BombRisk})
      case Archive(r) => MergeNested(start, Summarize(r))
    decreases Levels(shared.limits, depth), 0, 0
  {
    hide Summarize, MergeNested;
    summary := start;
    inside := NotArchive;
    if IsArchive(content, name) {
      if depth >= shared.limits.maximumDepth {
        inside := TooDeep;
        summary := start.(findings := start.findings + {NestedContainer, BudgetExhausted, BombRisk});
      } else {
        var nested;
        ghost var report;
        nested, report := InspectImpl(content, shared, ctx, preview, depth + 1);
        inside := Archive(report);
        summary := MergeNested(start, nested);
      }
    }
  }

  /** The flags an entry within the budget raises before it is opened. */
  method CheckRecord(r: Record, effective: seq<byte>, start: set<Finding>) returns (findings: set<Finding>)
    requires effective == EffectiveName(r)
    ensures findings == start + RecordFindings(r)
  {
    hide IsEncrypted, HasUnknownFlags, ExtensionIn, EffectiveName;
    findings := start;
    if HasUnknownFlags(r) { findings := findings + {Malformed}; }
    if IsEncrypted(r) { findings := findings + {EncryptedEntry}; }
    if r.kind != 0 && r.kind != 8 { findings := findings + {UnsupportedCompression}; }
    if ExtensionIn(effective, EXECUTABLE) { findings := findings + {ExecutableEntry}; }
    if ExtensionIn(effective, ACTIVE) { findings := findings + {ActiveContentEntry}; }
  }

  method CheckName(r: Record, canonical: Option<seq<byte>>, names: set<seq<byte>>, start: set<Finding>)
    returns (findings: set<Finding>, seen: set<seq<byte>>)
    requires canonical == Canonical(r.name)
    ensures findings == start + NameFindings(r, IsDuplicate(r, names)) && seen == AddName(r, names)
  {
    hide Canonical, IsUtf8Name;
    findings, seen := start, names;
    if IsUtf8Name(r) {
      var valid := Utf8.ValidUtf8(r.name);
      if !valid { findings := findings + {Malformed}; }
    }
    if canonical.None? {
      findings := findings + {PathEscape};
    } else {
      if canonical.value in names { findings := findings + {DuplicateName}; }
      seen := names + {canonical.value};
    }
  }

  method Decode(r: Record, v: Values, payload: seq<byte>) returns (content: Option<seq<byte>>)
    ensures content == DecodedContent(r, v, payload)
  {
    hide IsEncrypted, Inflater.Inflate;
    if !IsEncrypted(r) && r.kind == 0 && v.compressed == v.uncompressed { return Some(payload); }
    if !IsEncrypted(r) && r.kind == 8 {
      var ok, output := Inflater.InflateRaw(payload, v.uncompressed);
      return if ok then Some(output) else None;
    }
    return None;
  }

  method CheckContent(r: Record, content: seq<byte>, descriptorBad: bool, p: Preview, start: set<Finding>)
    returns (findings: set<Finding>)
    ensures findings == start + ContentFindings(r, content, descriptorBad, p)
  {
    hide Crc32.Checksum;
    findings := start;
    var crc := Crc32.Compute(content);
    if (crc as int) != r.crc { findings := findings + {CrcMismatch}; }
    if descriptorBad { findings := findings + {HeaderMismatch, Malformed}; }
    if p.embeddedExecutable { findings := findings + {ExecutableEntry}; }
    if p.activeContent || p.automaticAction || p.unsafeDeserialization { findings := findings + {ActiveContentEntry}; }
  }

  /** A visit's contribution apart from what its name shows. */
  function AddFate(s: Summary, r: Record, v: Values, f: Fate): Summary
    requires s.compressed < U64 && s.uncompressed < U64
  {
    AddVisit(s, Visit(r, v, false, f)).(findings := s.findings + FateFindings(r, f))
  }

  /** Counts one record and inspects its content as far as the budget and the headers allow. */
  method ExamineEntry(data: seq<byte>, d: Directory, r: Record, v: Values, effective: seq<byte>, start: Summary,
                      shared: SharedBudget, ghost ctx: Context, preview: (seq<byte>, seq<byte>) -> Preview, depth: nat)
    returns (summary: Summary, ghost fate: Fate)
    requires shared.Valid() && ctx == Context(shared.limits, preview) && effective == EffectiveName(r)
    requires start.compressed < U64 && start.uncompressed < U64
    modifies shared
    ensures shared.Valid()
    ensures Examined(fate, shared.Used()) == Examine(ctx, data, d, r, v, depth, old(shared.Used()))
    ensures summary == AddFate(start, r, v, fate)
    decreases Levels(shared.limits, depth), 1, 0
  {
    hide EffectiveName, IsArchive, Enter, Payload, DescriptorAgrees, HasDescriptor, DecodedContent, RecordFindings, AddFate,
      ContentFindings, ExceedsBudget, SharedBudget.Exceeds, Plus, MergeNested, Summarize, Saturate;
    summary := start.(entries := Plus(start.entries, 1),
                      compressed := Saturate(start.compressed, v.compressed),
                      uncompressed := Saturate(start.uncompressed, v.uncompressed));
    assert summary == Opened(start, v);
    shared.entries := Plus(shared.entries, 1);
    shared.counted := shared.counted + 1;
    assert shared.Valid() by { PlusOne(shared.counted - 1); }
    shared.ExceedsExact(v);
    if shared.Exceeds(v) {
      fate := OverBudget;
      summary := summary.(findings := summary.findings + {BombRisk, BudgetExhausted});
      AddClosed(start, r, v, fate);
      return;
    }
    var findings := CheckRecord(r, effective, summary.findings);
    var payload := Payload(data, d, r, v);
    if payload.None? {
      fate := BadLocal;
      summary := summary.(findings := findings + {HeaderMismatch, Malformed});
      assert summary.findings == start.findings + FateFindings(r, fate);
      AddClosed(start, r, v, fate);
      return;
    }
    var end := payload.value + v.compressed;
    var decoded := Decode(r, v, data[payload.value..end]);
    if decoded.None? {
      fate := Undecoded;
      if r.kind == 0 || r.kind == 8 { findings := findings + {Malformed}; }
      summary := summary.(findings := findings);
      assert summary.findings == start.findings + FateFindings(r, fate);
      AddClosed(start, r, v, fate);
      return;
    }
    var content := decoded.value;
    DecodedSize(r, v, data[payload.value..end]);
    shared.expanded := shared.expanded + |content|;
    var descriptorBad := HasDescriptor(r) && !DescriptorAgrees(data, d, r, v, end);
    var child := preview(content, effective);
    findings := CheckContent(r, content, descriptorBad, child, findings);
    summary := summary.(inspected := Plus(summary.inspected, 1), findings := findings);
    ghost var inside;
    summary, inside := Enters(content, effective, summary, shared, ctx, preview, depth);
    fate := Decoded(content, descriptorBad, child, inside);
    AddOpened(start, r, v, content, descriptorBad, child, inside);
  }

  /** The summary once the record is counted. */
  function Opened(start: Summary, v: Values): Summary
    requires start.compressed < U64 && start.uncompressed < U64
  {
    start.(entries := Plus(start.entries, 1), compressed := Saturate(start.compressed, v.compressed),
           uncompressed := Saturate(start.uncompressed, v.uncompressed))
  }

  lemma AddClosed(start: Summary, r: Record, v: Values, f: Fate)
    requires start.compressed < U64 && start.uncompressed < U64 && !f.Decoded?
    ensures AddFate(start, r, v, f) == Opened(start, v).(findings := start.findings + FateFindings(r, f))
  {
    hide Plus, FateFindings, Saturate;
    PlusNothing(start.inspected);
  }

  /** Decoded content adds one, and then what is inside it. */
  lemma AddOpened(start: Summary, r: Record, v: Values, content: seq<byte>, descriptorBad: bool, p: Preview, inside: Inside)
    requires start.compressed < U64 && start.uncompressed < U64
    ensures var own := start.findings + RecordFindings(r) + ContentFindings(r, content, descriptorBad, p);
      var s := Opened(start, v).(inspected := Plus(start.inspected, 1), findings := own);
      AddFate(start, r, v, Decoded(content, descriptorBad, p, inside)) ==
        match inside
        case NotArchive => s
        case TooDeep => s.(findings := s.findings + {NestedContainer, BudgetExhausted, BombRisk})
        case Archive(report) => MergeNested(s, Summarize(report))
  {
    hide Plus, RecordFindings, ContentFindings, Saturate, Entries, InspectedEntries, Depth, TotalBytes, Findings, Wrap;
    var own := start.findings + RecordFindings(r) + ContentFindings(r, content, descriptorBad, p);
    DecodedFindings(start.findings, r, content, descriptorBad, p, inside, own + InsideFindings(inside));
    if inside.Archive? {
      CountBoth(start.entries, Entries(inside.report));
      CountBoth(start.inspected, InspectedEntries(inside.report));
      assert own + ({NestedContainer} + Findings(inside.report)) == own + {NestedContainer} + Findings(inside.report);
    } else {
      assert own + {} == own;
    }
  }

  /** Counting an entry and then merging what is inside it counts both. */
  lemma CountBoth(counter: u32, n: nat)
    ensures Plus(Plus(counter, 1), n % U32) == Plus(counter, 1 + n)
  {
    hide Plus;
    PlusWrapped(Plus(counter, 1), n);
    PlusTwice(counter, 1, n);
  }

  lemma DecodedFindings(start: set<Finding>, r: Record, content: seq<byte>, descriptorBad: bool, p: Preview,
                        inside: Inside, end: set<Finding>)
    requires end == start + RecordFindings(r) + ContentFindings(r, content, descriptorBad, p) + InsideFindings(inside)
    ensures end == start + FateFindings(r, Decoded(content, descriptorBad, p, inside))
  {
  }

  /** Visits the records of one central directory in order. */
  method WalkRecords(data: seq<byte>, d: Directory, shared: SharedBudget, ghost ctx: Context,
                     preview: (seq<byte>, seq<byte>) -> Preview, depth: nat)
    returns (summary: Summary, ghost visits: seq<Visit>, ghost stop: Stop)
    requires shared.Valid() && ctx == Context(shared.limits, preview)
    modifies shared
    ensures shared.Valid()
    ensures Walked(visits, stop, shared.Used()) == Walk(ctx, data, d, depth, 0, d.offset, {}, old(shared.Used()))
    ensures summary == Summarize(Report(depth, visits, stop))
    decreases Levels(shared.limits, depth), 2, 0
  {
    hide Examine, ParseRecord, RecordValues, Canonical, NameFindings, AddVisit, Partial, Summarize, AddFate, EffectiveName,
      IsDuplicate, AddName;
    EmptySummary(depth);
    summary := Summary(0, 0, depth, 0, 0, {});
    visits := [];
    var names: set<seq<byte>> := {};
    var central, end := d.offset, d.offset + d.size;
    ghost var whole := Walk(ctx, data, d, depth, 0, central, names, shared.Used());
    assert [] + whole.visits == whole.visits;
    for ordinal := 0 to d.entries
      invariant shared.Valid() && summary == Partial(visits, depth)
      invariant var rest := Walk(ctx, data, d, depth, ordinal, central, names, shared.Used());
        whole == Walked(visits + rest.visits, rest.stop, rest.spent)
    {
      PartialBounds(visits, depth);
      var record := ParseRecord(data, central, end);
      if record.None? {
        stop := BadRecord;
        assert visits + [] == visits;
        PartialStops(visits, depth, stop);
        summary := summary.(findings := summary.findings + {Malformed});
        return;
      }
      var r := record.value;
      var canonical := CanonicalName(r.name);
      ghost var duplicate := IsDuplicate(r, names);
      var findings, seen := CheckName(r, canonical, names, summary.findings);
      var v := ParseZip64(r.extra, r.uncompressed32, r.compressed32, r.local32, r.disk);
      assert v == RecordValues(r) by { ValuesOf(r); }
      if !v.valid || v.disk != 0 {
        stop := BadExtra(r, duplicate);
        assert visits + [] == visits;
        PartialStops(visits, depth, stop);
        assert (summary.findings + NameFindings(r, duplicate)) + {Malformed} == summary.findings + StopFindings(stop);
        summary := summary.(findings := findings + {Malformed});
        return;
      }
      var effective := match canonical case Some(c) => c case None => r.name;
      assert effective == EffectiveName(r) by { EffectiveOf(r); }
      ghost var fate;
      ghost var before := summary;
      summary, fate := ExamineEntry(data, d, r, v, effective, summary.(findings := findings), shared, ctx, preview, depth);
      ghost var visit := Visit(r, v, duplicate, fate);
      AddVisitInSteps(before, visit);
      PartialSnoc(visits, visit, depth);
      ghost var rest := Walk(ctx, data, d, depth, ordinal + 1, r.next, seen, shared.Used());
      assert visits + ([visit] + rest.visits) == (visits + [visit]) + rest.visits;
      visits := visits + [visit];
      names := seen;
      central := r.next;
    }
    stop := Complete(central == end);
    assert visits + [] == visits;
    PartialStops(visits, depth, stop);
    if central != end { summary := summary.(findings := summary.findings + {Malformed}); }
  }

  lemma PartialBounds(visits: seq<Visit>, depth: nat)
    ensures Partial(visits, depth).compressed < U64 && Partial(visits, depth).uncompressed < U64
  {
    hide VisitsBytes, VisitsEntries, VisitsInspected, VisitsDepth, VisitsFindings;
  }

  lemma PartialStops(visits: seq<Visit>, depth: nat, stop: Stop)
    ensures var s := Partial(visits, depth);
      Summarize(Report(depth, visits, stop)) == s.(findings := s.findings + StopFindings(stop))
  {
    hide VisitsBytes, VisitsEntries, VisitsInspected, VisitsDepth, VisitsFindings, StopFindings;
  }

  lemma EmptySummary(depth: nat)
    ensures Partial([], depth) == Summary(0, 0, depth, 0, 0, {})
  {
  }

  lemma ValuesOf(r: Record)
    ensures RecordValues(r) == FromExtra(r.extra, 0, Values(r.uncompressed32, r.compressed32, r.local32, r.disk, true))
  {
  }

  lemma EffectiveOf(r: Record)
    ensures EffectiveName(r) == match Canonical(r.name) case Some(c) => c case None => r.name
  {
  }

  lemma AddVisitInSteps(s: Summary, v: Visit)
    requires s.compressed < U64 && s.uncompressed < U64
    ensures AddVisit(s, v) ==
      AddFate(s.(findings := s.findings + NameFindings(v.record, v.duplicate)), v.record, v.values, v.fate)
  {
    hide AddBytes, NameFindings, FateFindings, TotalBytes;
    SameBytes(s.compressed, v, true);
    SameBytes(s.uncompressed, v, false);
    var n, f := NameFindings(v.record, v.duplicate), FateFindings(v.record, v.fate);
    assert s.findings + (n + f) == (s.findings + n) + f;
  }

  lemma SameBytes(total: nat, v: Visit, packed: bool)
    requires total < U64
    ensures AddBytes(total, v, packed) == AddBytes(total, v.(duplicate := false), packed)
  {
  }

  lemma StoppedSummary(depth: nat, stop: Stop)
    ensures Summarize(Report(depth, [], stop)) == Summary(0, 0, depth, 0, 0, StopFindings(stop))
  {
    hide StopFindings;
    var r := Report(depth, [], stop);
    assert {} + StopFindings(stop) == StopFindings(stop);
    assert Entries(r) == 0 && InspectedEntries(r) == 0;
    assert Depth(r) == depth;
    assert TotalBytes(r, true) == 0 && TotalBytes(r, false) == 0;
    assert Findings(r) == StopFindings(stop);
  }

  /** Inspects one archive on the shared budget; nested archives are inspected through Enters. */
  method InspectImpl(data: seq<byte>, shared: SharedBudget, ghost ctx: Context,
                     preview: (seq<byte>, seq<byte>) -> Preview, depth: nat)
    returns (summary: Summary, ghost report: Report)
    requires shared.Valid() && ctx == Context(shared.limits, preview)
    modifies shared
    ensures shared.Valid()
    ensures Outcome(report, shared.Used()) == Inspect(ctx, data, old(shared.Used()), depth)
    ensures summary == Summarize(report)
    decreases Levels(shared.limits, depth), 3, 0
  {
    hide Walk, Summarize;
    summary := Summary(0, 0, depth, 0, 0, {});
    report := Report(depth, [], NoDirectory);
    if depth > shared.limits.maximumDepth || |data| < 22 {
      report := Report(depth, [], Refused(depth > shared.limits.maximumDepth, |data| < 22));
      if depth > shared.limits.maximumDepth { summary := summary.(findings := {BudgetExhausted}); }
      if |data| < 22 { summary := summary.(findings := summary.findings + {Malformed}); }
      StoppedSummary(depth, report.stop);
      return;
    }
    var end := FindEnd(data);
    if end.None? {
      summary := summary.(findings := {Malformed});
      StoppedSummary(depth, report.stop);
      return;
    }
    LastEndIsLast(data, Earliest(data), |data| - 22);
    var directory := LocateDirectory(data, end.value);
    if directory.None? || !DirectoryFits(shared.limits, directory.value, end.value) {
      var tooMany := directory.Some? && directory.value.entries > shared.limits.maximumEntries;
      report := Report(depth, [], BadDirectory(tooMany));
      summary := summary.(findings := {Malformed});
      if tooMany { summary := summary.(findings := summary.findings + {BudgetExhausted}); }
      StoppedSummary(depth, report.stop);
      return;
    }
    ghost var visits, stop;
    summary, visits, stop := WalkRecords(data, directory.value, shared, ctx, preview, depth);
    report := Report(depth, visits, stop);
  }

  datatype Inspection = InvalidArgument | Inspected(summary: Summary)

  predicate ValidArguments(data: seq<byte>, b: Budget) {
    && data != [] && |data| <= 256 * 1024 * 1024
    && b.maximumEntries > 0 && b.maximumDepth > 0 && b.maximumEntryBytes > 0 && b.maximumTotalBytes > 0
    && b.maximumRatio > 0
  }

  /** The entry point: a fresh budget and the outermost archive. */
  method InspectDeep(data: seq<byte>, budget: Budget, preview: (seq<byte>, seq<byte>) -> Preview)
    returns (r: Inspection)
    ensures r.InvalidArgument? <==>
      || data == [] || |data| > 0x1000_0000 || budget.maximumEntries == 0 || budget.maximumDepth == 0
      || budget.maximumEntryBytes == 0 || budget.maximumTotalBytes == 0 || budget.maximumRatio == 0
    ensures r.Inspected? ==>
      r.summary == Summarize(Inspect(Context(budget, preview), data, Spent(0, 0), 0).report)
  {
    hide Inspect, Summarize;
    if data == [] || |data| > 256 * 1024 * 1024 || budget.maximumEntries == 0 || budget.maximumDepth == 0
       || budget.maximumEntryBytes == 0 || budget.maximumTotalBytes == 0 || budget.maximumRatio == 0 {
      return InvalidArgument;
    }
    var shared := new SharedBudget(budget);
    ghost var report;
    var summary;
    summary, report := InspectImpl(data, shared, Context(budget, preview), preview, 0);
    return Inspected(summary);
  }
}
