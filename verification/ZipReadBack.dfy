/**
 Whatever the reference writer writes is read back: the inspector finds the directory, visits every entry of
 every nested archive with the content that was written, and reports nothing that is not there.
 */
module ZipReadBack {
  import opened Bytes
  import opened ZipFormat
  import opened ZipRecords
  import opened ZipWide
  import opened ZipReport
  import opened ZipWalk
  import opened ZipWriter
  import opened EntryNames
  import ZipTheory
  import Crc32
  import Utf8
  import DeflateEncoder

  // ---- where everything is -------------------------------------------------------------------

  lemma {:induction false} UnitPlace(es: seq<Entry>, i: nat, n: nat)
    requires i < n <= |es|
    ensures var unit := UnitOf(es[i], Content(es[i].body));
      && |Units(es, i)| + |unit| == |Units(es, i + 1)| <= |Units(es, n)|
      && Located(Units(es, n), |Units(es, i)|, unit)
    decreases n
  {
    hide UnitOf, Content;
    if i < n - 1 {
      UnitPlace(es, i, n - 1);
      LocatedPrefix(Units(es, n - 1), UnitOf(es[n - 1], Content(es[n - 1].body)), |Units(es, i)|,
                    UnitOf(es[i], Content(es[i].body)));
    }
  }

  lemma {:induction false} CentralPlace(es: seq<Entry>, i: nat, n: nat)
    requires i < n <= |es|
    ensures var central := CentralOf(es[i], Content(es[i].body), |Units(es, i)|);
      && |Centrals(es, i)| + |central| == |Centrals(es, i + 1)| <= |Centrals(es, n)|
      && Located(Centrals(es, n), |Centrals(es, i)|, central)
    decreases n
  {
    hide CentralOf, Content, Units;
    if i < n - 1 {
      CentralPlace(es, i, n - 1);
      LocatedPrefix(Centrals(es, n - 1), CentralOf(es[n - 1], Content(es[n - 1].body), |Units(es, n - 1)|),
                    |Centrals(es, i)|, CentralOf(es[i], Content(es[i].body), |Units(es, i)|));
    }
  }

  /** The directory record and the stored bytes of entry `i`, at their places in the archive. */
  lemma EntryPlaces(es: seq<Entry>, x: Option<seq<byte>>, i: nat)
    requires i < |es|
    ensures var data, d, content, local := ArchiveOf(es, x), DirectoryOf(es), Content(es[i].body), |Units(es, i)|;
      && Located(data, d.offset + |Centrals(es, i)|, CentralOf(es[i], content, local))
      && |Centrals(es, i)| + |CentralOf(es[i], content, local)| == |Centrals(es, i + 1)| <= d.size
      && Located(data, local, UnitOf(es[i], content))
      && local + |UnitOf(es[i], content)| == |Units(es, i + 1)| <= d.offset
  {
    hide Units, Centrals, UnitOf, CentralOf, Content, Close, Located;
    var data, n, content, local := ArchiveOf(es, x), |es|, Content(es[i].body), |Units(es, i)|;
    UnitPlace(es, i, n);
    CentralPlace(es, i, n);
    Whole(data);
    LocatedSplit(data, 0, Units(es, n) + Centrals(es, n), Close(DirectoryOf(es), x));
    LocatedSplit(data, 0, Units(es, n), Centrals(es, n));
    LocatedWithin(data, 0, Units(es, n), local, UnitOf(es[i], content));
    LocatedWithin(data, |Units(es, n)|, Centrals(es, n), |Centrals(es, i)|, CentralOf(es[i], content, local));
  }

  /** Behind the last entry comes the directory, behind any other the next local header. */
  lemma NextFollows(es: seq<Entry>, x: Option<seq<byte>>, i: nat)
    requires i < |es| && Writable(es, x)
    ensures Follows(ArchiveOf(es, x), DirectoryOf(es), |Units(es, i + 1)|)
  {
    hide Units, Centrals, UnitFits, LocalFields, Tail, Content, Located, Local, Read, CloseFits, ArchiveOf;
    if i + 1 < |es| {
      var data, e, at := ArchiveOf(es, x), es[i + 1], |Units(es, i + 1)|;
      var content := Content(e.body);
      EntryPlaces(es, x, i + 1);
      LocatedSplit(data, at, LocalOf(e, content) + e.packed, Tail(e, content));
      LocatedSplit(data, at, LocalOf(e, content), e.packed);
      assert EntryWritable(e, at);
      assert Sized(LocalFields(e, content), e.style.unread) by { LocalIsSized(e, content, at); }
      LocalExact(data, at, LocalFields(e, content), e.style.unread);
    }
  }

  lemma LocalIsSized(e: Entry, content: seq<byte>, local: nat)
    requires UnitFits(e, content, local)
    ensures Sized(LocalFields(e, content), e.style.unread)
  {
    hide LocalFields, Sized, Stored, Supported, Encodes, Others, RecordOf;
  }

  /** The end of a written archive is found, in either form, and gives its directory. */
  lemma EndReads(es: seq<Entry>, x: Option<seq<byte>>)
    requires CloseFits(DirectoryOf(es), x)
    ensures var data := ArchiveOf(es, x);
      && |data| >= 22 && EndOfDirectory(data) == Some(|data| - 22)
      && LocateDirectory(data, |data| - 22) == Some(DirectoryOf(es))
      && DirectoryOf(es).offset + DirectoryOf(es).size <= |data| - 22
  {
    hide Units, Centrals, EndStart, EndRest, WideEnd, Locator, Located, Read;
    var n, d := |es|, DirectoryOf(es);
    var front := Units(es, n) + Centrals(es, n);
    if x.Some? {
      WideDirectoryReads(front, d, x.value, 0xffff, NARROW32, NARROW32);
    } else {
      ShortDirectoryReads(front, d);
    }
  }

  // ---- the walk over a written archive -------------------------------------------------------

  ghost function WalkFrom(ctx: Context, es: seq<Entry>, x: Option<seq<byte>>, depth: nat, i: nat, names: set<seq<byte>>,
                          spent: Spent): Walked
    requires i <= |es|
  {
    Walk(ctx, ArchiveOf(es, x), DirectoryOf(es), depth, i, DirectoryOf(es).offset + |Centrals(es, i)|, names, spent)
  }

  lemma InspectIsWalk(ctx: Context, es: seq<Entry>, x: Option<seq<byte>>, depth: nat, spent: Spent)
    requires CloseFits(DirectoryOf(es), x) && depth <= ctx.budget.maximumDepth && |es| <= ctx.budget.maximumEntries
    ensures var w := WalkFrom(ctx, es, x, depth, 0, {}, spent);
      Inspect(ctx, ArchiveOf(es, x), spent, depth) == Outcome(Report(depth, w.visits, w.stop), w.spent)
  {
    hide Walk, Inspect, ArchiveOf, CloseFits, EndOfDirectory, LocateDirectory, Units, Centrals, Read;
    EndReads(es, x);
    assert Centrals(es, 0) == [] by { NoCentrals(es); }
    var data := ArchiveOf(es, x);
    ZipTheory.InspectWalks(ctx, data, |data| - 22, DirectoryOf(es), depth, spent);
  }

  lemma NoCentrals(es: seq<Entry>)
    ensures Centrals(es, 0) == []
  {
  }

  /** The visit of a written entry, whatever is found inside it. */
  ghost function VisitOf(ctx: Context, e: Entry, local: nat, next: nat, names: set<seq<byte>>, inside: Inside): Visit {
    var content := Content(e.body);
    var r := RecordOf(e, content, local, next);
    Visit(r, ValuesBack(e, content, local), IsDuplicate(r, names), FateOf(ctx, e, content, inside))
  }

  /** The record of entry `i` is read where the walk has come to, its content decoded and entered. */
  lemma WalkStep(ctx: Context, es: seq<Entry>, x: Option<seq<byte>>, depth: nat, i: nat, names: set<seq<byte>>, spent: Spent)
    returns (next: nat, seen: set<seq<byte>>)
    requires Writable(es, x) && i < |es| && WithinBudget(ctx.budget, es[i], Content(es[i].body))
    requires spent.entries < ctx.budget.maximumEntries
    requires spent.expanded + |Content(es[i].body)| <= ctx.budget.maximumTotalBytes
    ensures var content := Content(es[i].body);
      var inner := Enter(ctx, content, Effective(es[i].name), depth, Counted(spent, content));
      var v := VisitOf(ctx, es[i], |Units(es, i)|, next, names, inner.inside);
      var rest := WalkFrom(ctx, es, x, depth, i + 1, seen, inner.spent);
      WalkFrom(ctx, es, x, depth, i, names, spent) == Walked([v] + rest.visits, rest.stop, rest.spent)
  {
    hide Walk, ArchiveOf, Units, Centrals, UnitOf, CentralOf, RecordOf, Content, UnitFits, WithinBudget, Examine, ParseRecord,
      RecordValues, AddName, IsDuplicate, Located, Follows, Enter, Effective, CloseFits, FateOf;
    var data, d, e, content, local := ArchiveOf(es, x), DirectoryOf(es), es[i], Content(es[i].body), |Units(es, i)|;
    var at := d.offset + |Centrals(es, i)|;
    next := d.offset + |Centrals(es, i + 1)|;
    var r := RecordOf(e, content, local, next);
    seen := AddName(r, names);
    assert EntryWritable(e, local);
    EntryPlaces(es, x, i);
    NextFollows(es, x, i);
    CentralReads(data, at, d.offset + d.size, e, content, local);
    ValuesRead(e, content, local, next);
    ExamineReads(ctx, data, d, e, content, local, next, depth, spent);
    RecordNext(e, content, local, next);
    ZipTheory.WalkGoesOn(ctx, data, d, depth, i, at, names, spent);
  }

  lemma WalkEnds(ctx: Context, es: seq<Entry>, x: Option<seq<byte>>, depth: nat, names: set<seq<byte>>, spent: Spent)
    ensures WalkFrom(ctx, es, x, depth, |es|, names, spent) == Walked([], Complete(true), spent)
  {
    hide Walk, ArchiveOf, Units, Centrals;
    var d := DirectoryOf(es);
    ZipTheory.WalkStops(ctx, ArchiveOf(es, x), d, depth, |es|, d.offset + d.size, names, spent);
  }

  // ---- what it costs -------------------------------------------------------------------------

  /** The number of records of the first `n` entries, those inside nested archives included. */
  function AllEntries(es: seq<Entry>, n: nat): nat
    requires n <= |es|
    decreases es, n
  {
    if n == 0 then 0 else AllEntries(es, n - 1) + 1 + InnerEntries(es[n - 1].body)
  }

  function InnerEntries(b: Body): nat
    decreases b
  {
    match b
    case Plain(_) => 0
    case Nested(es, _) => AllEntries(es, |es|)
  }

  /** The number of bytes they decode to, likewise. */
  function AllBytes(es: seq<Entry>, n: nat): nat
    requires n <= |es|
    decreases es, n
  {
    if n == 0 then 0 else AllBytes(es, n - 1) + |Content(es[n - 1].body)| + InnerBytes(es[n - 1].body)
  }

  function InnerBytes(b: Body): nat
    decreases b
  {
    match b
    case Plain(_) => 0
    case Nested(es, _) => AllBytes(es, |es|)
  }

  lemma {:induction false} TotalsGrow(es: seq<Entry>, i: nat, n: nat)
    requires i <= n <= |es|
    ensures AllEntries(es, i) + (n - i) <= AllEntries(es, n) && AllBytes(es, i) <= AllBytes(es, n)
    decreases n
  {
    if i < n { TotalsGrow(es, i, n - 1); }
  }

  /** What is left of the budget pays for all of it. */
  predicate Affordable(b: Budget, es: seq<Entry>, spent: Spent) {
    && spent.entries + AllEntries(es, |es|) <= b.maximumEntries
    && spent.expanded + AllBytes(es, |es|) <= b.maximumTotalBytes
  }

  /** No entry is too large, and the nesting is not too deep. */
  predicate Admissible(b: Budget, es: seq<Entry>, depth: nat)
    decreases es
  {
    forall i | 0 <= i < |es| :: EntryAdmissible(b, es[i], depth)
  }

  /** Plain files do not look like archives; an archive without entries is only recognised by its name. */
  predicate EntryAdmissible(b: Budget, e: Entry, depth: nat)
    decreases e
  {
    WithinBudget(b, e, Content(e.body)) &&
    match e.body
    case Plain(content) => !IsArchive(content, Effective(e.name))
    case Nested(es, _) =>
      depth < b.maximumDepth && (es != [] || ExtensionIn(Effective(e.name), ARCHIVE)) && Admissible(b, es, depth + 1)
  }

  function Grown(spent: Spent, es: seq<Entry>, n: nat): Spent
    requires n <= |es|
  {
    Spent(spent.entries + AllEntries(es, n), spent.expanded + AllBytes(es, n))
  }

  // ---- the inspection of a written archive ---------------------------------------------------

  /** Every entry was visited, in order, and found as it was written. */
  ghost predicate ReadsAll(ctx: Context, r: Report, es: seq<Entry>, depth: nat)
    decreases es, 1
  {
    r.depth == depth && r.stop == Complete(true) && |r.visits| == |es| && ReadsFrom(ctx, r.visits, es, 0, depth)
  }

  ghost predicate ReadsFrom(ctx: Context, vs: seq<Visit>, es: seq<Entry>, i: nat, depth: nat)
    requires i + |vs| <= |es|
    decreases es, 0
  {
    forall k | 0 <= k < |vs| :: ReadsEntry(ctx, vs[k], es[i + k], |Units(es, i + k)|, depth)
  }

  /** All fields of the record, the content, and whatever is inside it are as written. */
  ghost predicate ReadsEntry(ctx: Context, v: Visit, e: Entry, local: nat, depth: nat)
    decreases e
  {
    var content := Content(e.body);
    && v.record == RecordOf(e, content, local, v.record.next) && v.values == ValuesBack(e, content, local)
    && v.fate.Decoded? && v.fate == FateOf(ctx, e, content, v.fate.inside)
    && match e.body
       case Plain(_) => v.fate.inside == NotArchive
       case Nested(es, _) => v.fate.inside.Archive? && ReadsAll(ctx, v.fate.inside.report, es, depth + 1)
  }

  lemma VisitReads(ctx: Context, e: Entry, local: nat, next: nat, names: set<seq<byte>>, inside: Inside, depth: nat)
    requires match e.body
      case Plain(_) => inside == NotArchive
      case Nested(es, _) => inside.Archive? && ReadsAll(ctx, inside.report, es, depth + 1)
    ensures ReadsEntry(ctx, VisitOf(ctx, e, local, next, names, inside), e, local, depth)
  {
    hide ReadsAll, Content, IsDuplicate, ValuesBack, Mistaken, Effective;
    RecordNext(e, Content(e.body), local, next);
  }

  lemma RecordNext(e: Entry, content: seq<byte>, local: nat, next: nat)
    ensures RecordOf(e, content, local, next).next == next
  {
  }

  lemma ReadsCons(ctx: Context, v: Visit, vs: seq<Visit>, es: seq<Entry>, i: nat, depth: nat)
    requires i + 1 + |vs| <= |es| && ReadsEntry(ctx, v, es[i], |Units(es, i)|, depth) && ReadsFrom(ctx, vs, es, i + 1, depth)
    ensures ReadsFrom(ctx, [v] + vs, es, i, depth)
  {
    hide ReadsEntry, Units;
    var all := [v] + vs;
    forall k | 0 <= k < |all|
      ensures ReadsEntry(ctx, all[k], es[i + k], |Units(es, i + k)|, depth)
    {
      if k > 0 { assert all[k] == vs[k - 1] && i + k == i + 1 + (k - 1); }
    }
  }

  lemma LooksLikeArchive(es: seq<Entry>, x: Option<seq<byte>>)
    requires es != [] && Writable(es, x)
    ensures |ArchiveOf(es, x)| >= 4 && Read32(ArchiveOf(es, x), 0) == LOCAL_HEADER
  {
    hide Centrals, UnitFits, LocalFields, Tail, Content, Located, Local, Read, CloseFits, ArchiveOf;
    var data, e, content := ArchiveOf(es, x), es[0], Content(es[0].body);
    EntryPlaces(es, x, 0);
    LocatedSplit(data, 0, LocalOf(e, content) + e.packed, Tail(e, content));
    LocatedSplit(data, 0, LocalOf(e, content), e.packed);
    assert EntryWritable(e, 0);
    assert Sized(LocalFields(e, content), e.style.unread) by { LocalIsSized(e, content, 0); }
    LocalExact(data, 0, LocalFields(e, content), e.style.unread);
  }

  lemma {:induction false} InspectReads(ctx: Context, es: seq<Entry>, x: Option<seq<byte>>, depth: nat, spent: Spent)
    requires Writable(es, x) && Affordable(ctx.budget, es, spent) && Admissible(ctx.budget, es, depth)
    requires depth <= ctx.budget.maximumDepth
    ensures var o := Inspect(ctx, ArchiveOf(es, x), spent, depth);
      ReadsAll(ctx, o.report, es, depth) && o.spent == Grown(spent, es, |es|)
    decreases es, |es| + 1
  {
    hide Inspect, ArchiveOf, Admissible, WalkFrom, ReadsFrom, CloseFits, EntryWritable, Units, Centrals;
    TotalsGrow(es, 0, |es|);
    InspectIsWalk(ctx, es, x, depth, spent);
    assert Grown(spent, es, 0) == spent;
    WalkReads(ctx, es, x, depth, spent, 0, {});
  }

  lemma {:induction false} WalkReads(ctx: Context, es: seq<Entry>, x: Option<seq<byte>>, depth: nat, spent: Spent, i: nat,
                                     names: set<seq<byte>>)
    requires Writable(es, x) && Affordable(ctx.budget, es, spent) && Admissible(ctx.budget, es, depth) && i <= |es|
    ensures var w := WalkFrom(ctx, es, x, depth, i, names, Grown(spent, es, i));
      && w.stop == Complete(true) && w.spent == Grown(spent, es, |es|)
      && |w.visits| == |es| - i && ReadsFrom(ctx, w.visits, es, i, depth)
    decreases es, |es| - i
  {
    hide Writable, ArchiveOf, WalkFrom, ReadsFrom, ReadsEntry, Content, Units, WithinBudget, VisitOf, Enter, Effective, IsArchive,
      InnerEntries, InnerBytes, EntryAdmissible, Affordable, Admissible, Grown, AllEntries, AllBytes, Counted;
    if i == |es| {
      WalkEnds(ctx, es, x, depth, names, Grown(spent, es, i));
      ReadsNone(ctx, es, i, depth);
    } else {
      var e, content, here := es[i], Content(es[i].body), Grown(spent, es, i);
      StepAffordable(ctx.budget, es, spent, i);
      StepAdmissible(ctx.budget, es, depth, i);
      var next, seen := WalkStep(ctx, es, x, depth, i, names, here);
      var inner := Enter(ctx, content, Effective(e.name), depth, Counted(here, content));
      EntryOf(es, x, i);
      EnterReads(ctx, e, |Units(es, i)|, depth, Counted(here, content));
      VisitReads(ctx, e, |Units(es, i)|, next, names, inner.inside, depth);
      WalkReads(ctx, es, x, depth, spent, i + 1, seen);
      ReadsCons(ctx, VisitOf(ctx, e, |Units(es, i)|, next, names, inner.inside),
                WalkFrom(ctx, es, x, depth, i + 1, seen, inner.spent).visits, es, i, depth);
    }
  }

  /** What is left pays for entry `i` and everything inside it, and that is what it costs. */
  lemma StepAffordable(b: Budget, es: seq<Entry>, spent: Spent, i: nat)
    requires Affordable(b, es, spent) && i < |es|
    ensures var content, here := Content(es[i].body), Grown(spent, es, i);
      var entered := Counted(here, content);
      && here.entries < b.maximumEntries && here.expanded + |content| <= b.maximumTotalBytes
      && entered.entries + InnerEntries(es[i].body) <= b.maximumEntries
      && entered.expanded + InnerBytes(es[i].body) <= b.maximumTotalBytes
      && Spent(entered.entries + InnerEntries(es[i].body), entered.expanded + InnerBytes(es[i].body)) == Grown(spent, es, i + 1)
  {
    hide Content, InnerEntries, InnerBytes;
    TotalsGrow(es, i + 1, |es|);
  }

  lemma StepAdmissible(b: Budget, es: seq<Entry>, depth: nat, i: nat)
    requires Admissible(b, es, depth) && i < |es|
    ensures EntryAdmissible(b, es[i], depth) && WithinBudget(b, es[i], Content(es[i].body))
  {
    hide WithinBudget, Content;
    assert EntryAdmissible(b, es[i], depth);
  }

  lemma ReadsNone(ctx: Context, es: seq<Entry>, i: nat, depth: nat)
    requires i <= |es|
    ensures ReadsFrom(ctx, [], es, i, depth)
  {
  }

  lemma EntryOf(es: seq<Entry>, x: Option<seq<byte>>, i: nat)
    requires i < |es| && Writable(es, x)
    ensures EntryWritable(es[i], |Units(es, i)|)
  {
    hide EntryWritable, CloseFits;
  }

  /** A plain file is not entered; a nested archive is read back one level deeper. */
  lemma {:induction false} EnterReads(ctx: Context, e: Entry, local: nat, depth: nat, spent: Spent)
    requires EntryWritable(e, local) && EntryAdmissible(ctx.budget, e, depth)
    requires spent.entries + InnerEntries(e.body) <= ctx.budget.maximumEntries
    requires spent.expanded + InnerBytes(e.body) <= ctx.budget.maximumTotalBytes
    ensures var inner := Enter(ctx, Content(e.body), Effective(e.name), depth, spent);
      && inner.spent == Spent(spent.entries + InnerEntries(e.body), spent.expanded + InnerBytes(e.body))
      && match e.body
         case Plain(_) => inner.inside == NotArchive
         case Nested(es, _) => inner.inside.Archive? && ReadsAll(ctx, inner.inside.report, es, depth + 1)
    decreases e
  {
    hide Inspect, UnitFits, Writable, WithinBudget, Admissible, AllEntries, AllBytes, ArchiveOf, ReadsAll, Effective,
      ExtensionIn, Read;
    if e.body.Nested? {
      var es, x := e.body.entries, e.body.extension;
      if es != [] { LooksLikeArchive(es, x); }
      InspectReads(ctx, es, x, depth + 1, spent);
    }
  }

  // ---- the summary of a written archive ------------------------------------------------------

  /** What the names and the file preflight may show of any file. */
  const HARMLESS: set<Finding> := {PathEscape, DuplicateName, ExecutableEntry, ActiveContentEntry}

  /** What must be reported besides: nested archives, and descriptors that will be mistaken, at any level. */
  function Told(es: seq<Entry>, n: nat): set<Finding>
    requires n <= |es|
    decreases es, n
  {
    if n == 0 then {} else Told(es, n - 1) + ToldOf(es[n - 1])
  }

  function ToldOf(e: Entry): set<Finding>
    decreases e
  {
    When(Mistaken(e, Content(e.body)), {HeaderMismatch, Malformed}) +
    match e.body
    case Plain(_) => {}
    case Nested(es, _) => {NestedContainer} + Told(es, |es|)
  }

  lemma NamesHarmless(e: Entry, content: seq<byte>, local: nat, next: nat, duplicate: bool)
    requires Supported(RecordOf(e, content, local, 0))
    ensures NameFindings(RecordOf(e, content, local, next), duplicate) <= HARMLESS
    ensures RecordFindings(RecordOf(e, content, local, next)) <= HARMLESS
  {
    hide Canonical, ExtensionIn, Effective, FlagSet, Utf8.Decode, ExtraOf, Crc, NarrowOf;
  }

  lemma ContentHarmless(e: Entry, content: seq<byte>, local: nat, next: nat, p: Preview)
    ensures ContentFindings(RecordOf(e, content, local, next), content, Mistaken(e, content), p) - HARMLESS
      == When(Mistaken(e, content), {HeaderMismatch, Malformed})
  {
    hide ExtraOf, NarrowOf, Mistaken, Crc32.Checksum;
  }

  lemma EntryTells(ctx: Context, v: Visit, e: Entry, local: nat, depth: nat)
    requires ReadsEntry(ctx, v, e, local, depth) && EntryWritable(e, local)
    requires e.body.Nested? ==>
      Findings(v.fate.inside.report) - HARMLESS == Told(e.body.entries, |e.body.entries|)
    ensures VisitFindings(v) - HARMLESS == ToldOf(e)
  {
    hide ReadsAll, Writable, Content, RecordOf, NameFindings, RecordFindings, ContentFindings, Findings, Told, Mistaken, Encodes,
      Supported, Effective, ValuesBack;
    var content := Content(e.body);
    NamesHarmless(e, content, local, v.record.next, v.duplicate);
    ContentHarmless(e, content, local, v.record.next, v.fate.preview);
    InsideTells(v.fate.inside);
  }

  lemma InsideTells(i: Inside)
    ensures i == NotArchive ==> InsideFindings(i) - HARMLESS == {}
    ensures i.Archive? ==> InsideFindings(i) - HARMLESS == {NestedContainer} + (Findings(i.report) - HARMLESS)
  {
    hide Findings;
  }

  lemma EntryCounts(ctx: Context, v: Visit, e: Entry, local: nat, depth: nat)
    requires ReadsEntry(ctx, v, e, local, depth)
    requires e.body.Nested? ==> InspectedEntries(v.fate.inside.report) == AllEntries(e.body.entries, |e.body.entries|)
    ensures v.fate.Decoded? && InsideInspected(v) == InnerEntries(e.body)
  {
    hide ReadsAll, Content, RecordOf, AllEntries, InspectedEntries, ValuesBack, FateOf;
  }

  lemma {:induction false} VisitsTell(ctx: Context, vs: seq<Visit>, es: seq<Entry>, x: Option<seq<byte>>, depth: nat)
    requires |vs| <= |es| && Writable(es, x) && ReadsFrom(ctx, vs, es, 0, depth)
    ensures VisitsFindings(vs) - HARMLESS == Told(es, |vs|) && VisitsInspected(vs) == AllEntries(es, |vs|)
    decreases es, |vs|
  {
    hide ReadsEntry, VisitFindings, ToldOf, InnerEntries, InsideInspected, Units, CloseFits, EntryWritable;
    if vs != [] {
      var last := |vs| - 1;
      var v, e, local := vs[last], es[last], |Units(es, last)|;
      VisitsTell(ctx, vs[..last], es, x, depth);
      EntryOf(es, x, last);
      assert ReadsEntry(ctx, v, e, local, depth);
      EntryTold(ctx, v, e, local, depth);
    }
  }

  lemma {:induction false} EntryTold(ctx: Context, v: Visit, e: Entry, local: nat, depth: nat)
    requires ReadsEntry(ctx, v, e, local, depth) && EntryWritable(e, local)
    ensures VisitFindings(v) - HARMLESS == ToldOf(e) && v.fate.Decoded? && InsideInspected(v) == InnerEntries(e.body)
    decreases e
  {
    hide ReadsFrom, VisitFindings, ToldOf, InnerEntries, InsideInspected, UnitFits, RecordOf, ValuesBack, Content, Writable, FateOf;
    if e.body.Nested? {
      var report := v.fate.inside.report;
      VisitsTell(ctx, report.visits, e.body.entries, e.body.extension, depth + 1);
      StopTellsNothing(report);
    }
    EntryTells(ctx, v, e, local, depth);
    EntryCounts(ctx, v, e, local, depth);
  }

  lemma StopTellsNothing(r: Report)
    requires r.stop == Complete(true)
    ensures Findings(r) == VisitsFindings(r.visits) && InspectedEntries(r) == VisitsInspected(r.visits)
  {
  }

  /**
   The inspector reads back every archive that fits the budget, whatever is nested inside it: all entries are
   visited in order, each with exactly the record and content that was written; exactly the entries and bytes of
   all levels are counted; and besides what names and file contents show, exactly the nested archives and the
   descriptors that will be mistaken are reported.
   */
  lemma WrittenArchiveReadsBack(ctx: Context, es: seq<Entry>, x: Option<seq<byte>>)
    requires Writable(es, x) && Affordable(ctx.budget, es, Spent(0, 0)) && Admissible(ctx.budget, es, 0)
    ensures var o := Inspect(ctx, ArchiveOf(es, x), Spent(0, 0), 0);
      && ReadsAll(ctx, o.report, es, 0)
      && Entries(o.report) == InspectedEntries(o.report) == o.spent.entries == AllEntries(es, |es|)
      && ExpandedBytes(o.report) == o.spent.expanded == AllBytes(es, |es|)
      && Findings(o.report) - HARMLESS == Told(es, |es|)
  {
    hide Inspect, ArchiveOf, Writable, Affordable, Admissible, ReadsFrom, Findings, InspectedEntries, Entries, ExpandedBytes;
    var r := Inspect(ctx, ArchiveOf(es, x), Spent(0, 0), 0).report;
    InspectReads(ctx, es, x, 0, Spent(0, 0));
    ZipTheory.InspectAccounted(ctx, ArchiveOf(es, x), Spent(0, 0), 0);
    VisitsTell(ctx, r.visits, es, x, 0);
    StopTellsNothing(r);
  }

  // ---- every file can be written -------------------------------------------------------------

  /** Whatever the reference compressor produces can be stored, so every content can be written deflated. */
  lemma CompressedEncodes(name: seq<byte>, cs: seq<DeflateEncoder.Chunk>, style: Style)
    requires cs != [] && DeflateEncoder.ChunksLegal(cs, [])
    ensures var content := DeflateEncoder.ExpandChunks(cs, []);
      Encodes(Entry(name, Plain(content), DeflateEncoder.Compress(cs), true, style), content)
  {
    DeflateEncoder.CompressRoundTrip(cs);
  }
}
