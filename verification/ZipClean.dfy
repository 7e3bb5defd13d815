/** What a clean summary guarantees, why no finding is lost, and when the byte totals are exact. */
module ZipClean {
  import opened Bytes
  import opened ZipFormat
  import opened ZipReport
  import opened ZipWalk
  import opened ZipTheory
  import opened EntryNames
  import Crc32

  // ---- no finding is lost --------------------------------------------------------------------

  lemma {:induction false} VisitFindingsKept(vs: seq<Visit>, i: nat)
    requires i < |vs|
    ensures VisitFindings(vs[i]) <= VisitsFindings(vs)
  {
    if i < |vs| - 1 { VisitFindingsKept(vs[..|vs| - 1], i); }
  }

  /** `d` is `r` or lies somewhere inside it. */
  predicate Holds(r: Report, d: Report)
    decreases r
  {
    r == d || exists i | 0 <= i < |r.visits| :: VisitHolds(r.visits[i], d)
  }

  predicate VisitHolds(v: Visit, d: Report)
    decreases v
  {
    v.fate.Decoded? && v.fate.inside.Archive? && Holds(v.fate.inside.report, d)
  }

  /** Everything found in a nested archive, however deep, is in the outermost summary. */
  lemma {:induction false} NoFindingLost(r: Report, d: Report)
    requires Holds(r, d)
    ensures Findings(d) <= Findings(r)
    ensures d != r ==> NestedContainer in Findings(r)
    decreases r
  {
    hide NameFindings, RecordFindings, ContentFindings, VisitsFindings, StopFindings;
    if r != d {
      var i :| 0 <= i < |r.visits| && VisitHolds(r.visits[i], d);
      var v := r.visits[i];
      NoFindingLost(v.fate.inside.report, d);
      VisitFindingsKept(r.visits, i);
      assert InsideFindings(v.fate.inside) == {NestedContainer} + Findings(v.fate.inside.report);
      assert InsideFindings(v.fate.inside) <= FateFindings(v.record, v.fate) <= VisitFindings(v);
      assert VisitsFindings(r.visits) <= Findings(r);
    }
  }

  // ---- a clean result means everything was inspected -----------------------------------------

  predicate Clean(findings: set<Finding>) {
    Malformed !in findings && BombRisk !in findings && UnsupportedCompression !in findings && CrcMismatch !in findings
  }

  /** The visits take up the directory from `central` to `end` without a gap. */
  predicate Tiled(data: seq<byte>, visits: seq<Visit>, central: nat, end: nat) {
    if visits == [] then central == end
    else
      && ParseRecord(data, central, end) == Some(visits[0].record)
      && Tiled(data, visits[1..], visits[0].record.next, end)
  }

  /** The content is what the stored bytes decode to, with the declared size, checksum and descriptor. */
  ghost predicate VisitInspected(data: seq<byte>, d: Directory, v: Visit)
    decreases v
  {
    && v.values == RecordValues(v.record) && v.fate.Decoded?
    && (match Payload(data, d, v.record, v.values)
        case None => false
        case Some(p) =>
          && DecodedContent(v.record, v.values, data[p..p + v.values.compressed]) == Some(v.fate.content)
          && (HasDescriptor(v.record) ==> DescriptorAgrees(data, d, v.record, v.values, p + v.values.compressed)))
    && |v.fate.content| == v.values.uncompressed
    && (Crc32.Checksum(v.fate.content) as int) == v.record.crc
    && (IsArchive(v.fate.content, EffectiveName(v.record)) ==>
          v.fate.inside.Archive? && FullyInspected(v.fate.content, v.fate.inside.report))
  }

  /** Every record of the directory was visited, its content decoded and checked, at every level. */
  ghost predicate FullyInspected(data: seq<byte>, r: Report)
    decreases r
  {
    && r.stop == Complete(true)
    && |data| >= 22 && EndOfDirectory(data).Some?
    && (LastEndIsLast(data, Earliest(data), |data| - 22);
        var d := LocateDirectory(data, EndOfDirectory(data).value);
        && d.Some? && |r.visits| == d.value.entries
        && Tiled(data, r.visits, d.value.offset, d.value.offset + d.value.size)
        && forall i | 0 <= i < |r.visits| :: VisitInspected(data, d.value, r.visits[i]))
  }

  lemma {:induction false} InspectClean(ctx: Context, data: seq<byte>, spent: Spent, depth: nat)
    requires depth <= ctx.budget.maximumDepth
    requires Clean(Findings(Inspect(ctx, data, spent, depth).report))
    ensures var r := Inspect(ctx, data, spent, depth).report;
      FullyInspected(data, r) && InspectedEntries(r) == Entries(r)
    decreases Levels(ctx.budget, depth), 3, 0
  {
    hide Walk, VisitInspected, Tiled, VisitsEntries, VisitsInspected, VisitsFindings;
    if |data| >= 22 && EndOfDirectory(data).Some? {
      var end := EndOfDirectory(data).value;
      LastEndIsLast(data, Earliest(data), |data| - 22);
      var d := LocateDirectory(data, end);
      if d.Some? && DirectoryFits(ctx.budget, d.value, end) {
        WalkClean(ctx, data, d.value, depth, 0, d.value.offset, {}, spent);
      }
    }
  }

  lemma {:induction false} WalkClean(ctx: Context, data: seq<byte>, d: Directory, depth: nat, ordinal: nat,
                                     central: nat, names: set<seq<byte>>, spent: Spent)
    requires ordinal <= d.entries && depth <= ctx.budget.maximumDepth
    requires var w := Walk(ctx, data, d, depth, ordinal, central, names, spent);
      Clean(VisitsFindings(w.visits) + StopFindings(w.stop))
    ensures var w := Walk(ctx, data, d, depth, ordinal, central, names, spent);
      && w.stop == Complete(true) && |w.visits| == d.entries - ordinal
      && Tiled(data, w.visits, central, d.offset + d.size)
      && (forall i | 0 <= i < |w.visits| :: VisitInspected(data, d, w.visits[i]))
      && VisitsInspected(w.visits) == VisitsEntries(w.visits)
    decreases Levels(ctx.budget, depth), 2, d.entries - ordinal
  {
    hide Walk, Examine, ParseRecord, RecordValues, IsDuplicate, AddName, VisitFindings, VisitInspected,
      InsideEntries, InsideInspected, VisitsEntries, VisitsInspected, VisitsFindings, NameFindings;
    TotalsNil(depth);
    if Continues(data, d, ordinal, central) {
      var r := ParseRecord(data, central, d.offset + d.size).value;
      var v, duplicate, seen := RecordValues(r), IsDuplicate(r, names), AddName(r, names);
      var x := Examine(ctx, data, d, r, v, depth, spent);
      var visit := Visit(r, v, duplicate, x.fate);
      WalkGoesOn(ctx, data, d, depth, ordinal, central, names, spent);
      var w := Walk(ctx, data, d, depth, ordinal + 1, r.next, seen, x.spent);
      TotalsCons(visit, w.visits, depth);
      ExamineClean(ctx, data, d, r, duplicate, depth, spent);
      WalkClean(ctx, data, d, depth, ordinal + 1, r.next, seen, x.spent);
      var all := Walk(ctx, data, d, depth, ordinal, central, names, spent);
      assert all.visits == [visit] + w.visits && all.visits[1..] == w.visits;
      assert Tiled(data, all.visits, central, d.offset + d.size);
      forall i | 0 <= i < |all.visits|
        ensures VisitInspected(data, d, all.visits[i])
      {
        if i > 0 { assert all.visits[i] == w.visits[i - 1]; }
      }
    } else {
      WalkStops(ctx, data, d, depth, ordinal, central, names, spent);
    }
  }

  lemma {:induction false} ExamineClean(ctx: Context, data: seq<byte>, d: Directory, r: Record,
                                        duplicate: bool, depth: nat, spent: Spent)
    requires depth <= ctx.budget.maximumDepth
    requires Clean(VisitFindings(Visit(r, RecordValues(r), duplicate,
                                       Examine(ctx, data, d, r, RecordValues(r), depth, spent).fate)))
    ensures var visit := Visit(r, RecordValues(r), duplicate,
                               Examine(ctx, data, d, r, RecordValues(r), depth, spent).fate);
      VisitInspected(data, d, visit) && visit.fate.Decoded? && InsideInspected(visit) == InsideEntries(visit)
    decreases Levels(ctx.budget, depth), 1, 0
  {
    hide Payload, DecodedContent, Enter, DescriptorAgrees, HasDescriptor, IsArchive, ExceedsBudget, EffectiveName,
      RecordValues, Crc32.Checksum, IsEncrypted, HasUnknownFlags, ExtensionIn, NameFindings, FullyInspected, Findings;
    var v := RecordValues(r);
    var counted := spent.(entries := spent.entries + 1);
    if !ExceedsBudget(ctx.budget, counted, v) {
      var p := Payload(data, d, r, v);
      if p.Some? {
        var payload := data[p.value..p.value + v.compressed];
        var content := DecodedContent(r, v, payload);
        if content.Some? {
          DecodedSize(r, v, payload);
          EnterClean(ctx, content.value, EffectiveName(r), depth,
                     counted.(expanded := counted.expanded + |content.value|));
        }
      }
    }
  }

  lemma {:induction false} EnterClean(ctx: Context, content: seq<byte>, name: seq<byte>, depth: nat, spent: Spent)
    requires depth <= ctx.budget.maximumDepth
    ensures var i := Enter(ctx, content, name, depth, spent).inside;
      Clean(InsideFindings(i)) && IsArchive(content, name) ==>
        i.Archive? && FullyInspected(content, i.report) && InspectedEntries(i.report) == Entries(i.report)
    ensures !IsArchive(content, name) ==> Enter(ctx, content, name, depth, spent).inside == NotArchive
    decreases Levels(ctx.budget, depth), 0, 0
  {
    hide Inspect, IsArchive, FullyInspected, Findings;
    if IsArchive(content, name) && depth < ctx.budget.maximumDepth {
      var r := Inspect(ctx, content, spent, depth + 1).report;
      if Clean({NestedContainer} + Findings(r)) {
        InspectClean(ctx, content, spent, depth + 1);
      }
    }
  }

  /**
   A summary without malformed, bomb-risk, unsupported-compression and checksum findings: at every level the
   directory is tiled by its declared number of records and each entry's content was decoded and checked.
   */
  lemma CleanMeansInspected(ctx: Context, data: seq<byte>)
    requires Clean(Summarize(Inspect(ctx, data, Spent(0, 0), 0).report).findings)
    ensures var r := Inspect(ctx, data, Spent(0, 0), 0).report;
      FullyInspected(data, r) && InspectedEntries(r) == Entries(r) && Summarize(r).inspected == Summarize(r).entries
  {
    hide Inspect, FullyInspected, Findings;
    InspectClean(ctx, data, Spent(0, 0), 0);
  }

  // ---- duplicates ----------------------------------------------------------------------------

  /** Record `i` is called a duplicate exactly when an earlier name of its directory has the same canonical form. */
  lemma {:induction false} DuplicatesFound(ctx: Context, data: seq<byte>, d: Directory, depth: nat, ordinal: nat,
                                           central: nat, names: set<seq<byte>>, spent: Spent, i: nat)
    requires ordinal <= d.entries
    requires i < |Walk(ctx, data, d, depth, ordinal, central, names, spent).visits|
    ensures var vs := Walk(ctx, data, d, depth, ordinal, central, names, spent).visits;
      var c := Canonical(vs[i].record.name);
      vs[i].duplicate <==> c.Some? && (c.value in names || exists j | 0 <= j < i :: Canonical(vs[j].record.name) == c)
    decreases d.entries - ordinal
  {
    hide Walk, Examine, ParseRecord, RecordValues, Canonical;
    if Continues(data, d, ordinal, central) {
      var r := ParseRecord(data, central, d.offset + d.size).value;
      var x := Examine(ctx, data, d, r, RecordValues(r), depth, spent);
      WalkGoesOn(ctx, data, d, depth, ordinal, central, names, spent);
      var vs := Walk(ctx, data, d, depth, ordinal, central, names, spent).visits;
      var rest := Walk(ctx, data, d, depth, ordinal + 1, r.next, AddName(r, names), x.spent).visits;
      if i > 0 {
        DuplicatesFound(ctx, data, d, depth, ordinal + 1, r.next, AddName(r, names), x.spent, i - 1);
        assert vs[i] == rest[i - 1] && vs[0].record == r;
        assert forall j | 0 <= j < i - 1 :: rest[j] == vs[j + 1];
        assert forall j | 0 < j < i :: vs[j] == rest[j - 1];
      }
    } else {
      WalkStops(ctx, data, d, depth, ordinal, central, names, spent);
    }
  }

  // ---- byte totals ---------------------------------------------------------------------------

  function InsideBytes(v: Visit, packed: bool): nat
    decreases v
  {
    if v.fate.Decoded? && v.fate.inside.Archive? then TrueBytes(v.fate.inside.report, packed) else 0
  }

  function VisitsTrueBytes(vs: seq<Visit>, packed: bool): nat
    decreases vs
  {
    if vs == [] then 0
    else
      var v := vs[|vs| - 1];
      VisitsTrueBytes(vs[..|vs| - 1], packed) + DeclaredSize(v, packed) + InsideBytes(v, packed)
  }

  /** The true sum of the declared sizes of all records in the tree. */
  function TrueBytes(r: Report, packed: bool): nat
    decreases r
  {
    VisitsTrueBytes(r.visits, packed)
  }

  lemma {:induction false} VisitsBytesExact(vs: seq<Visit>, packed: bool)
    requires VisitsTrueBytes(vs, packed) < U64
    ensures VisitsBytes(vs, packed) == VisitsTrueBytes(vs, packed)
    decreases vs
  {
    if vs != [] {
      VisitsBytesExact(vs[..|vs| - 1], packed);
      InsideBytesExact(vs[|vs| - 1], packed);
    }
  }

  lemma {:induction false} InsideBytesExact(v: Visit, packed: bool)
    requires InsideBytes(v, packed) < U64
    ensures v.fate.Decoded? && v.fate.inside.Archive? ==>
      TotalBytes(v.fate.inside.report, packed) == InsideBytes(v, packed)
    decreases v
  {
    if v.fate.Decoded? && v.fate.inside.Archive? {
      TotalBytesExact(v.fate.inside.report, packed);
    }
  }

  /** The reported total is the true one exactly when the true one fits into 64 bits. */
  lemma {:induction false} TotalBytesExact(r: Report, packed: bool)
    ensures TotalBytes(r, packed) == TrueBytes(r, packed) <==> TrueBytes(r, packed) < U64
    decreases r
  {
    if TrueBytes(r, packed) < U64 {
      VisitsBytesExact(r.visits, packed);
    }
  }

  predicate Flat(v: Visit) { !(v.fate.Decoded? && v.fate.inside.Archive?) }

  /** Without nested archives the total is the true one, cut off at the largest 64-bit value. */
  lemma {:induction false} FlatTotalSaturates(vs: seq<Visit>, packed: bool)
    requires forall i | 0 <= i < |vs| :: Flat(vs[i])
    ensures VisitsBytes(vs, packed) == Min(VisitsTrueBytes(vs, packed), U64 - 1)
    decreases |vs|
  {
    if vs != [] {
      FlatTotalSaturates(vs[..|vs| - 1], packed);
      assert Flat(vs[|vs| - 1]);
    }
  }
}
