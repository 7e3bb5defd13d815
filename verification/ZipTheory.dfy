/** What holds of every inspection: the budget, conservation of counts, and what a clean summary guarantees. */
module ZipTheory {
  import opened Bytes
  import opened ZipFormat
  import opened ZipReport
  import opened ZipWalk
  import opened EntryNames

  // ---- totals seen from the front ------------------------------------------------------------

  lemma {:induction false} TotalsCons(v: Visit, vs: seq<Visit>, depth: nat)
    ensures VisitsEntries([v] + vs) == 1 + InsideEntries(v) + VisitsEntries(vs)
    ensures VisitsInspected([v] + vs) == (if v.fate.Decoded? then 1 else 0) + InsideInspected(v) + VisitsInspected(vs)
    ensures VisitsExpanded([v] + vs) == InsideExpanded(v) + VisitsExpanded(vs)
    ensures VisitsDepth([v] + vs, depth) == Max(InsideDepth(v), VisitsDepth(vs, depth))
    ensures VisitsFindings([v] + vs) == VisitFindings(v) + VisitsFindings(vs)
    decreases |vs|
  {
    hide InsideEntries, InsideInspected, InsideExpanded, InsideDepth, VisitFindings;
    var all := [v] + vs;
    if vs == [] {
      assert all[..0] == [] && all[0] == v;
    } else {
      var front, last := vs[..|vs| - 1], vs[|vs| - 1];
      TotalsCons(v, front, depth);
      assert all[..|all| - 1] == [v] + front && all[|all| - 1] == last;
    }
  }

  lemma TotalsNil(depth: nat)
    ensures VisitsEntries([]) == 0 && VisitsInspected([]) == 0 && VisitsExpanded([]) == 0
    ensures VisitsDepth([], depth) == depth && VisitsFindings([]) == {}
  {
  }

  /** There is another record, and it can be visited. */
  ghost predicate Continues(data: seq<byte>, d: Directory, ordinal: nat, central: nat) {
    && ordinal < d.entries && ParseRecord(data, central, d.offset + d.size).Some?
    && var v := RecordValues(ParseRecord(data, central, d.offset + d.size).value);
       v.valid && v.disk == 0
  }

  lemma WalkStops(ctx: Context, data: seq<byte>, d: Directory, depth: nat, ordinal: nat, central: nat,
                  names: set<seq<byte>>, spent: Spent)
    requires ordinal <= d.entries && !Continues(data, d, ordinal, central)
    ensures var w := Walk(ctx, data, d, depth, ordinal, central, names, spent);
      && w.visits == [] && w.spent == spent
      && (w.stop.Complete? ==> ordinal == d.entries && w.stop.tiled == (central == d.offset + d.size))
      && (!w.stop.Complete? ==> ordinal < d.entries && (w.stop.BadRecord? || w.stop.BadExtra?))
  {
  }

  lemma WalkGoesOn(ctx: Context, data: seq<byte>, d: Directory, depth: nat, ordinal: nat, central: nat,
                   names: set<seq<byte>>, spent: Spent)
    requires ordinal <= d.entries && Continues(data, d, ordinal, central)
    ensures var r := ParseRecord(data, central, d.offset + d.size).value;
      var x := Examine(ctx, data, d, r, RecordValues(r), depth, spent);
      var rest := Walk(ctx, data, d, depth, ordinal + 1, r.next, AddName(r, names), x.spent);
      Walk(ctx, data, d, depth, ordinal, central, names, spent)
        == Walked([Visit(r, RecordValues(r), IsDuplicate(r, names), x.fate)] + rest.visits, rest.stop, rest.spent)
  {
  }

  /** Once the directory is located, the inspection is the walk over it. */
  lemma InspectWalks(ctx: Context, data: seq<byte>, end: nat, d: Directory, depth: nat, spent: Spent)
    requires depth <= ctx.budget.maximumDepth && |data| >= 22 && EndOfDirectory(data) == Some(end)
    requires Has(data, end, 22) && LocateDirectory(data, end) == Some(d) && DirectoryFits(ctx.budget, d, end)
    ensures var w := Walk(ctx, data, d, depth, 0, d.offset, {}, spent);
      Inspect(ctx, data, spent, depth) == Outcome(Report(depth, w.visits, w.stop), w.spent)
  {
    hide Walk, LocateDirectory, EndOfDirectory, DirectoryFits;
  }

  /** The walk over a directory of one record. */
  lemma OneRecordWalked(ctx: Context, data: seq<byte>, d: Directory, depth: nat, spent: Spent, r: Record, v: Values)
    requires d.entries == 1 && ParseRecord(data, d.offset, d.offset + d.size) == Some(r) && r.next == d.offset + d.size
    requires RecordValues(r) == v && v.valid && v.disk == 0
    ensures var x := Examine(ctx, data, d, r, v, depth, spent);
      Walk(ctx, data, d, depth, 0, d.offset, {}, spent) == Walked([Visit(r, v, false, x.fate)], Complete(true), x.spent)
  {
    hide Walk, Examine, ParseRecord, RecordValues, Canonical;
    var x := Examine(ctx, data, d, r, v, depth, spent);
    WalkGoesOn(ctx, data, d, depth, 0, d.offset, {}, spent);
    WalkStops(ctx, data, d, depth, 1, r.next, AddName(r, {}), x.spent);
    assert [Visit(r, v, false, x.fate)] + [] == [Visit(r, v, false, x.fate)];
  }

  // ---- the budget ----------------------------------------------------------------------------

  /** The test by quotient and remainder is the exact comparison, without the overflow of a product. */
  lemma RatioExact(u: nat, c: nat, ratio: nat)
    ensures RatioExceeded(u, c, ratio) <==> u > ratio * c
  {
    if c > 0 { QuotientCompares(u, c, ratio, u / c, u % c); }
  }

  lemma QuotientCompares(u: nat, c: nat, ratio: nat, q: nat, m: nat)
    requires u == c * q + m && m < c
    ensures u > ratio * c <==> q > ratio || (q == ratio && m != 0)
  {
    Commutes(c, ratio);
    if q > ratio {
      Longer(c, ratio, q);
    } else if q < ratio {
      Longer(c, q, ratio);
    }
  }

  lemma {:induction false} Longer(c: nat, a: nat, b: nat)
    requires a < b
    ensures c * a + c <= c * b
    decreases b
  {
    if b == a + 1 {
      assert c * (a + 1) == c * a + c;
    } else {
      Longer(c, a, b - 1);
      assert c * b == c * (b - 1) + c;
    }
  }

  lemma Commutes(a: nat, b: nat)
    ensures a * b == b * a
  {
  }

  /**
   How many of the first `n` records the entry limit lets through: the source compares their number modulo
   2^32, so it starts anew after every 2^32 records.
   */
  function Capped(b: Budget, n: nat): nat { n / U32 * (b.maximumEntries + 1) + Min(n % U32, b.maximumEntries) }

  lemma CappedStep(b: Budget, n: nat)
    ensures Capped(b, n) <= Capped(b, n + 1)
    ensures (n + 1) % U32 <= b.maximumEntries ==> Capped(b, n + 1) == Capped(b, n) + 1
  {
    var q, k, m := n / U32, n % U32, b.maximumEntries + 1;
    if k == U32 - 1 {
      assert (n + 1) / U32 == q + 1 && (n + 1) % U32 == 0;
      assert (q + 1) * m == q * m + m;
    } else {
      assert (n + 1) / U32 == q && (n + 1) % U32 == k + 1;
    }
  }

  lemma CappedSmall(b: Budget, n: nat)
    requires n < U32
    ensures Capped(b, n) == Min(n, b.maximumEntries)
  {
  }

  /** Every decoded entry stays within the entry size and the expansion ratio, at every level. */
  predicate WithinLimits(b: Budget, r: Report)
    decreases r
  {
    r.depth <= b.maximumDepth && forall i | 0 <= i < |r.visits| :: VisitWithinLimits(b, r.visits[i])
  }

  predicate VisitWithinLimits(b: Budget, v: Visit)
    decreases v
  {
    v.fate.Decoded? ==>
      && |v.fate.content| == v.values.uncompressed <= b.maximumEntryBytes
      && |v.fate.content| <= b.maximumRatio * v.values.compressed
      && (v.fate.inside.Archive? ==> WithinLimits(b, v.fate.inside.report))
  }

  /** How the budget after a step relates to the budget before it and to what was found in between. */
  predicate Accounted(b: Budget, before: Spent, after: Spent, entries: nat, inspected: nat, expanded: nat) {
    && after.entries == before.entries + entries && after.expanded == before.expanded + expanded
    && (before.expanded <= b.maximumTotalBytes ==> after.expanded <= b.maximumTotalBytes)
    && inspected <= Capped(b, after.entries) - Capped(b, before.entries)
  }

  datatype Counts = Counts(entries: nat, inspected: nat, expanded: nat)

  predicate Spending(b: Budget, before: Spent, after: Spent, n: Counts) {
    Accounted(b, before, after, n.entries, n.inspected, n.expanded)
  }

  lemma AccountedChain(b: Budget, s0: Spent, s1: Spent, s2: Spent, m: Counts, n: Counts, all: Counts)
    requires Spending(b, s0, s1, m) && Spending(b, s1, s2, n)
    requires all == Counts(m.entries + n.entries, m.inspected + n.inspected, m.expanded + n.expanded)
    ensures Spending(b, s0, s2, all)
  {
  }

  function CountsOf(v: Visit): Counts {
    Counts(1 + InsideEntries(v), (if v.fate.Decoded? then 1 else 0) + InsideInspected(v), InsideExpanded(v))
  }

  function CountsOfAll(vs: seq<Visit>): Counts {
    Counts(VisitsEntries(vs), VisitsInspected(vs), VisitsExpanded(vs))
  }

  lemma AccountedNone(b: Budget, s: Spent)
    ensures Accounted(b, s, s, 0, 0, 0)
  {
  }

  lemma AccountedCons(b: Budget, v: Visit, vs: seq<Visit>, s0: Spent, s1: Spent, s2: Spent)
    requires Spending(b, s0, s1, CountsOf(v)) && Spending(b, s1, s2, CountsOfAll(vs))
    ensures Spending(b, s0, s2, CountsOfAll([v] + vs))
  {
    hide Spending, InsideEntries, InsideInspected, InsideExpanded, VisitsEntries, VisitsInspected, VisitsExpanded;
    TotalsCons(v, vs, 0);
    AccountedChain(b, s0, s1, s2, CountsOf(v), CountsOfAll(vs), CountsOfAll([v] + vs));
  }

  lemma {:induction false} InspectAccounted(ctx: Context, data: seq<byte>, spent: Spent, depth: nat)
    ensures var o := Inspect(ctx, data, spent, depth);
      && o.report.depth == depth
      && Accounted(ctx.budget, spent, o.spent, Entries(o.report), InspectedEntries(o.report), ExpandedBytes(o.report))
      && Depth(o.report) <= Max(depth, ctx.budget.maximumDepth)
      && (depth <= ctx.budget.maximumDepth ==> WithinLimits(ctx.budget, o.report))
    decreases Levels(ctx.budget, depth), 3, 0
  {
    hide Walk;
    if depth <= ctx.budget.maximumDepth && |data| >= 22 && EndOfDirectory(data).Some? {
      var end := EndOfDirectory(data).value;
      LastEndIsLast(data, Earliest(data), |data| - 22);
      var d := LocateDirectory(data, end);
      if d.Some? && DirectoryFits(ctx.budget, d.value, end) {
        WalkAccounted(ctx, data, d.value, depth, 0, d.value.offset, {}, spent);
      }
    }
  }

  lemma {:induction false} WalkAccounted(ctx: Context, data: seq<byte>, d: Directory, depth: nat, ordinal: nat,
                                         central: nat, names: set<seq<byte>>, spent: Spent)
    requires ordinal <= d.entries && depth <= ctx.budget.maximumDepth
    ensures var w := Walk(ctx, data, d, depth, ordinal, central, names, spent);
      && Accounted(ctx.budget, spent, w.spent, VisitsEntries(w.visits), VisitsInspected(w.visits), VisitsExpanded(w.visits))
      && VisitsDepth(w.visits, depth) <= ctx.budget.maximumDepth
      && (forall i | 0 <= i < |w.visits| :: VisitWithinLimits(ctx.budget, w.visits[i]))
    decreases Levels(ctx.budget, depth), 2, d.entries - ordinal
  {
    hide Walk, Examine, ParseRecord, RecordValues, IsDuplicate, AddName, InsideEntries, InsideInspected,
      InsideExpanded, InsideDepth, VisitsEntries, VisitsInspected, VisitsExpanded, VisitsDepth, VisitWithinLimits, Accounted;
    AccountedNone(ctx.budget, spent);
    TotalsNil(depth);
    if Continues(data, d, ordinal, central) {
      var r := ParseRecord(data, central, d.offset + d.size).value;
      var v, duplicate, seen := RecordValues(r), IsDuplicate(r, names), AddName(r, names);
      var x := Examine(ctx, data, d, r, v, depth, spent);
      ExamineAccounted(ctx, data, d, r, v, duplicate, depth, spent);
      WalkGoesOn(ctx, data, d, depth, ordinal, central, names, spent);
      WalkAccounted(ctx, data, d, depth, ordinal + 1, r.next, seen, x.spent);
      var visit := Visit(r, v, duplicate, x.fate);
      var w := Walk(ctx, data, d, depth, ordinal + 1, r.next, seen, x.spent);
      AccountedCons(ctx.budget, visit, w.visits, spent, x.spent, w.spent);
      TotalsCons(visit, w.visits, depth);
    } else {
      WalkStops(ctx, data, d, depth, ordinal, central, names, spent);
    }
  }

  lemma {:induction false} ExamineAccounted(ctx: Context, data: seq<byte>, d: Directory, r: Record, v: Values,
                                            duplicate: bool, depth: nat, spent: Spent)
    requires depth <= ctx.budget.maximumDepth
    ensures var x := Examine(ctx, data, d, r, v, depth, spent);
      var visit := Visit(r, v, duplicate, x.fate);
      && Accounted(ctx.budget, spent, x.spent, 1 + InsideEntries(visit),
                   (if x.fate.Decoded? then 1 else 0) + InsideInspected(visit), InsideExpanded(visit))
      && InsideDepth(visit) <= ctx.budget.maximumDepth
      && VisitWithinLimits(ctx.budget, visit)
    decreases Levels(ctx.budget, depth), 1, 0
  {
    hide Payload, DecodedContent, Enter, DescriptorAgrees, IsArchive, RatioExceeded, EffectiveName, Capped;
    CappedStep(ctx.budget, spent.entries);
    var counted := spent.(entries := spent.entries + 1);
    if !ExceedsBudget(ctx.budget, counted, v) {
      var p := Payload(data, d, r, v);
      if p.Some? {
        var payload := data[p.value..p.value + v.compressed];
        var content := DecodedContent(r, v, payload);
        if content.Some? {
          DecodedSize(r, v, payload);
          RatioExact(v.uncompressed, v.compressed, ctx.budget.maximumRatio);
          var grown := counted.(expanded := counted.expanded + |content.value|);
          EnterAccounted(ctx, content.value, EffectiveName(r), depth, grown);
        }
      }
    }
  }

  lemma {:induction false} EnterAccounted(ctx: Context, content: seq<byte>, name: seq<byte>, depth: nat, spent: Spent)
    requires depth <= ctx.budget.maximumDepth
    ensures var e := Enter(ctx, content, name, depth, spent);
      match e.inside
      case Archive(r) =>
        && Accounted(ctx.budget, spent, e.spent, Entries(r), InspectedEntries(r), ExpandedBytes(r))
        && Depth(r) <= ctx.budget.maximumDepth && WithinLimits(ctx.budget, r)
      case _ => e.spent == spent
    decreases Levels(ctx.budget, depth), 0, 0
  {
    hide Inspect, IsArchive;
    if depth < ctx.budget.maximumDepth {
      InspectAccounted(ctx, content, spent, depth + 1);
    }
  }

  // ---- conservation of entries ---------------------------------------------------------------

  /** Each counted record takes at least 47 bytes of its directory, which lies in the data it was read from. */
  lemma {:induction false} EntriesPaidFor(ctx: Context, data: seq<byte>, spent: Spent, depth: nat)
    ensures var r := Inspect(ctx, data, spent, depth).report;
      47 * Entries(r) <= |data| + ExpandedBytes(r)
    decreases Levels(ctx.budget, depth), 3, 0
  {
    hide Walk;
    if depth <= ctx.budget.maximumDepth && |data| >= 22 && EndOfDirectory(data).Some? {
      var end := EndOfDirectory(data).value;
      LastEndIsLast(data, Earliest(data), |data| - 22);
      var d := LocateDirectory(data, end);
      if d.Some? && DirectoryFits(ctx.budget, d.value, end) {
        WalkPaidFor(ctx, data, d.value, depth, 0, d.value.offset, {}, spent);
      }
    }
  }

  lemma {:induction false} WalkPaidFor(ctx: Context, data: seq<byte>, d: Directory, depth: nat, ordinal: nat,
                                       central: nat, names: set<seq<byte>>, spent: Spent)
    requires ordinal <= d.entries && central <= d.offset + d.size
    ensures var vs := Walk(ctx, data, d, depth, ordinal, central, names, spent).visits;
      47 * VisitsEntries(vs) <= d.offset + d.size - central + VisitsExpanded(vs)
    decreases Levels(ctx.budget, depth), 2, d.entries - ordinal
  {
    hide Walk, Examine, ParseRecord, RecordValues, IsDuplicate, AddName, InsideEntries, InsideInspected,
      InsideExpanded, InsideDepth, VisitsEntries, VisitsInspected, VisitsExpanded, VisitsDepth;
    TotalsNil(depth);
    if Continues(data, d, ordinal, central) {
      var r := ParseRecord(data, central, d.offset + d.size).value;
      var v, duplicate, seen := RecordValues(r), IsDuplicate(r, names), AddName(r, names);
      var x := Examine(ctx, data, d, r, v, depth, spent);
      ExaminePaidFor(ctx, data, d, r, v, duplicate, depth, spent);
      WalkGoesOn(ctx, data, d, depth, ordinal, central, names, spent);
      WalkPaidFor(ctx, data, d, depth, ordinal + 1, r.next, seen, x.spent);
      TotalsCons(Visit(r, v, duplicate, x.fate), Walk(ctx, data, d, depth, ordinal + 1, r.next, seen, x.spent).visits, depth);
    } else {
      WalkStops(ctx, data, d, depth, ordinal, central, names, spent);
    }
  }

  lemma {:induction false} ExaminePaidFor(ctx: Context, data: seq<byte>, d: Directory, r: Record, v: Values,
                                          duplicate: bool, depth: nat, spent: Spent)
    ensures var visit := Visit(r, v, duplicate, Examine(ctx, data, d, r, v, depth, spent).fate);
      47 * InsideEntries(visit) <= InsideExpanded(visit)
    decreases Levels(ctx.budget, depth), 1, 0
  {
    hide Payload, DecodedContent, DescriptorAgrees, IsArchive, ExceedsBudget, EffectiveName, Inspect;
    var counted := spent.(entries := spent.entries + 1);
    var p := Payload(data, d, r, v);
    if p.Some? {
      var content := DecodedContent(r, v, data[p.value..p.value + v.compressed]);
      if content.Some? && depth < ctx.budget.maximumDepth {
        EntriesPaidFor(ctx, content.value, counted.(expanded := counted.expanded + |content.value|), depth + 1);
      }
    }
  }

  /**
   The bounds of a whole inspection. Its counters are the true numbers modulo 2^32; the true number of decoded
   entries is at most what the entry limit lets through.
   */
  lemma InspectionBounded(ctx: Context, data: seq<byte>)
    ensures var o := Inspect(ctx, data, Spent(0, 0), 0);
      var s := Summarize(o.report);
      && s.entries == o.spent.entries % U32 && o.spent.entries == Entries(o.report)
      && InspectedEntries(o.report) <= Entries(o.report)
      && InspectedEntries(o.report) <= Capped(ctx.budget, o.spent.entries)
      && o.spent.expanded == ExpandedBytes(o.report) <= ctx.budget.maximumTotalBytes
      && s.depth <= ctx.budget.maximumDepth
      && WithinLimits(ctx.budget, o.report)
      && 47 * Entries(o.report) <= |data| + o.spent.expanded
  {
    hide Inspect, WithinLimits, Capped;
    CappedSmall(ctx.budget, 0);
    InspectAccounted(ctx, data, Spent(0, 0), 0);
    EntriesPaidFor(ctx, data, Spent(0, 0), 0);
    CappedAtMost(ctx.budget, Inspect(ctx, data, Spent(0, 0), 0).spent.entries);
  }

  lemma CappedAtMost(b: Budget, n: nat)
    ensures Capped(b, n) <= n
  {
    assert n / U32 * (b.maximumEntries + 1) <= n / U32 * U32;
  }

  /**
   While the byte budget is at most 128 GiB, the 32-bit counters hold the true numbers, and no more entries
   are inspected than the budget admits.
   */
  lemma CountersFit(ctx: Context, data: seq<byte>)
    requires ValidArguments(data, ctx.budget) && ctx.budget.maximumTotalBytes <= 0x20_0000_0000
    ensures var r := Inspect(ctx, data, Spent(0, 0), 0).report;
      var s := Summarize(r);
      s.entries == Entries(r) && s.inspected == InspectedEntries(r) <= ctx.budget.maximumEntries
  {
    hide Inspect, Capped, Entries, InspectedEntries, ExpandedBytes;
    InspectionBounded(ctx, data);
    CappedSmall(ctx.budget, Inspect(ctx, data, Spent(0, 0), 0).spent.entries);
  }
}
