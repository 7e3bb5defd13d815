/** The pruned window against the full history, and what a verdict can depend on. */
module RansomwareTheory {
  import opened Bytes
  import opened Ransomware
  import BitStream

  // ---- the window and the full history -------------------------------------------------------

  function Run(policy: Policy, events: seq<Event>): Windows {
    if events == [] then map[]
    else After(policy, Run(policy, events[..|events| - 1]), events[|events| - 1])
  }

  /** Every observation of a process since it was last reset. */
  function History(process: u64, events: seq<Event>): seq<Observation> {
    if events == [] then []
    else
      var before := History(process, events[..|events| - 1]);
      match events[|events| - 1]
      case Seen(x) => if Counts(x) && x.process == process then before + [x] else before
      case Reset(p) => if p == process then [] else before
  }

  /** A process's window depends on its own history alone, whatever other processes do. */
  lemma {:induction false} WindowOfHistory(policy: Policy, events: seq<Event>, process: u64)
    ensures Held(Run(policy, events), process) == Window(policy, History(process, events))
  {
    hide Prune, InWindow;
    if events != [] {
      var last := |events| - 1;
      WindowOfHistory(policy, events[..last], process);
      if events[last].Seen? {
        var h := History(process, events[..last]);
        assert (h + [events[last].x])[..|h|] == h;
      }
    }
  }

  /** So two runs that agree on a process's own history give its next observation the same verdict. */
  lemma OthersDoNotMatter(policy: Policy, a: seq<Event>, b: seq<Event>, x: Observation)
    requires History(x.process, a) == History(x.process, b)
    ensures Outcome(policy, Run(policy, a), x) == Outcome(policy, Run(policy, b), x)
  {
    hide Run, History, Prune, Window, Judge, TallyOf;
    WindowOfHistory(policy, a, x.process);
    WindowOfHistory(policy, b, x.process);
  }

  /** The clock of a history does not go back. */
  predicate Ordered(h: seq<Observation>) { forall i, j | 0 <= i < j < |h| :: h[i].time <= h[j].time }

  /** The observations of the whole history that lie in the window of its last one. */
  function Recent(policy: Policy, h: seq<Observation>): seq<Observation> {
    if h == [] then [] else Prune(policy, h, h[|h| - 1].time)
  }

  // ---- picking a subsequence -----------------------------------------------------------------

  function Pick(h: seq<Observation>, marks: seq<bool>): (r: seq<Observation>)
    requires |marks| == |h|
  {
    if h == [] then []
    else
      var last := |h| - 1;
      Pick(h[..last], marks[..last]) + (if marks[last] then [h[last]] else [])
  }

  function In(policy: Policy, h: seq<Observation>, t: u64): (r: seq<bool>)
    ensures |r| == |h|
  {
    seq(|h|, i requires 0 <= i < |h| => InWindow(policy, h[i], t))
  }

  function Both(a: seq<bool>, b: seq<bool>): (r: seq<bool>)
    requires |a| == |b|
    ensures |r| == |a|
  {
    seq(|a|, i requires 0 <= i < |a| => a[i] && b[i])
  }

  /** Observation `i` was inside the window of every later one. */
  ghost predicate Survives(policy: Policy, h: seq<Observation>, i: nat)
    requires i < |h|
  {
    forall j | i < j < |h| :: InWindow(policy, h[i], h[j].time)
  }

  ghost function Survivors(policy: Policy, h: seq<Observation>): (r: seq<bool>)
    ensures |r| == |h|
  {
    seq(|h|, i requires 0 <= i < |h| => Survives(policy, h, i))
  }

  lemma {:induction false} PruneIsPick(policy: Policy, h: seq<Observation>, t: u64)
    ensures Prune(policy, h, t) == Pick(h, In(policy, h, t))
  {
    hide InWindow;
    if h != [] {
      var last := |h| - 1;
      PruneIsPick(policy, h[..last], t);
      assert In(policy, h, t)[..last] == In(policy, h[..last], t);
    }
  }

  lemma {:induction false} PrunePick(policy: Policy, h: seq<Observation>, marks: seq<bool>, t: u64)
    requires |marks| == |h|
    ensures Prune(policy, Pick(h, marks), t) == Pick(h, Both(marks, In(policy, h, t)))
  {
    hide InWindow;
    if h != [] {
      var last := |h| - 1;
      var before := Pick(h[..last], marks[..last]);
      PrunePick(policy, h[..last], marks[..last], t);
      assert Both(marks, In(policy, h, t))[..last] == Both(marks[..last], In(policy, h[..last], t));
      if marks[last] {
        assert (before + [h[last]])[..|before|] == before;
      } else {
        assert before + [] == before;
      }
    }
  }

  /** After any history at all, the window holds exactly what no later observation has pruned, in order. */
  lemma {:induction false} WindowIsSurvivors(policy: Policy, h: seq<Observation>)
    ensures Window(policy, h) == Pick(h, Survivors(policy, h))
  {
    hide InWindow, Pick;
    if h == [] {
      PickNone(h, Survivors(policy, h));
    } else {
      var last := |h| - 1;
      var before := h[..last];
      WindowIsSurvivors(policy, before);
      PrunePick(policy, before, Survivors(policy, before), h[last].time);
      SurvivorsSnoc(policy, before, h[last]);
      assert h == before + [h[last]];
      PickSnoc(h, Survivors(policy, h));
    }
  }

  lemma PickNone(h: seq<Observation>, marks: seq<bool>)
    requires |marks| == |h| == 0
    ensures Pick(h, marks) == []
  {
  }

  lemma PickSnoc(h: seq<Observation>, marks: seq<bool>)
    requires |marks| == |h| > 0
    ensures Pick(h, marks) == Pick(h[..|h| - 1], marks[..|h| - 1]) + if marks[|h| - 1] then [h[|h| - 1]] else []
  {
  }

  lemma SurvivorsSnoc(policy: Policy, h: seq<Observation>, x: Observation)
    ensures Survivors(policy, h + [x])[..|h|] == Both(Survivors(policy, h), In(policy, h, x.time))
    ensures Survivors(policy, h + [x])[|h|]
  {
    hide InWindow;
    var g := h + [x];
    forall i | 0 <= i < |h|
      ensures Survives(policy, g, i) <==> Survives(policy, h, i) && InWindow(policy, h[i], x.time)
    {
      assert g[i] == h[i] && g[|h|] == x;
      assert forall j | i < j < |h| :: g[j] == h[j];
      if Survives(policy, g, i) {
        assert forall j | i < j < |h| :: InWindow(policy, g[i], g[j].time);
      }
    }
  }

  lemma {:induction false} PickLength(h: seq<Observation>, a: seq<bool>, b: seq<bool>)
    requires |a| == |b| == |h| && forall i | 0 <= i < |h| :: a[i] ==> b[i]
    ensures |Pick(h, a)| <= |Pick(h, b)|
    ensures |Pick(h, a)| == |Pick(h, b)| ==> a == b
  {
    if h != [] {
      var last := |h| - 1;
      PickLength(h[..last], a[..last], b[..last]);
      assert a == a[..last] + [a[last]] && b == b[..last] + [b[last]];
    }
  }

  lemma LastInWindow(policy: Policy, x: Observation)
    ensures InWindow(policy, x, x.time)
  {
  }

  /** No observation inside the last window was outside the window of one in between. */
  ghost predicate NothingLost(policy: Policy, h: seq<Observation>) {
    forall i, j | 0 <= i < j < |h| :: InWindow(policy, h[i], h[|h| - 1].time) ==> InWindow(policy, h[i], h[j].time)
  }

  /**
   The window is the recent part of the full history exactly when no timestamp in between has pruned what the
   last window covers.
   */
  lemma WindowIsRecentExactly(policy: Policy, h: seq<Observation>)
    ensures Window(policy, h) == Recent(policy, h) <==> NothingLost(policy, h)
  {
    hide InWindow, Pick, Prune, Window;
    if h == [] {
      WindowIsSurvivors(policy, h);
      PickNone(h, Survivors(policy, h));
    } else {
      var t := h[|h| - 1].time;
      var a, b := Survivors(policy, h), In(policy, h, t);
      LastInWindow(policy, h[|h| - 1]);
      WindowIsSurvivors(policy, h);
      PruneIsPick(policy, h, t);
      forall i | 0 <= i < |h|
        ensures a[i] ==> b[i]
      {
        if i < |h| - 1 && a[i] { assert InWindow(policy, h[i], h[|h| - 1].time); }
      }
      PickLength(h, a, b);
      if a == b {
        forall i, j | 0 <= i < j < |h| && InWindow(policy, h[i], t)
          ensures InWindow(policy, h[i], h[j].time)
        {
          assert b[i] && a[i];
        }
      }
      if NothingLost(policy, h) {
        assert forall i | 0 <= i < |h| :: b[i] ==> a[i];
        assert a == b;
      }
    }
  }

  /** A clock that does not go back loses nothing. */
  lemma OrderedLosesNothing(policy: Policy, h: seq<Observation>)
    requires Ordered(h)
    ensures NothingLost(policy, h)
  {
    forall i, j | 0 <= i < j < |h| && InWindow(policy, h[i], h[|h| - 1].time)
      ensures InWindow(policy, h[i], h[j].time)
    {
      assert h[i].time <= h[j].time && (j == |h| - 1 || h[j].time <= h[|h| - 1].time);
    }
  }

  /**
   On any run in which a process's clock does not go back, its next verdict is the one drawn from its full
   history since the last reset, cut to the window of the new observation.
   */
  lemma VerdictFromFullHistory(policy: Policy, events: seq<Event>, x: Observation)
    requires Counts(x) && Ordered(History(x.process, events) + [x])
    ensures Outcome(policy, Run(policy, events), x)
         == Judge(policy, TallyOf(policy, Recent(policy, History(x.process, events) + [x])))
  {
    hide Run, History, Prune, Judge, TallyOf, InWindow;
    var h := History(x.process, events);
    assert (h + [x])[..|h|] == h;
    WindowOfHistory(policy, events, x.process);
    OrderedLosesNothing(policy, h + [x]);
    WindowIsRecentExactly(policy, h + [x]);
  }

  /** One timestamp from the past is enough to lose what the window should cover. */
  lemma ClockSetBackForgets(policy: Policy, a: Observation, b: Observation)
    requires policy.window >= 2 && a.time == 10 && b.time == 9
    ensures !NothingLost(policy, [a, b, a]) && Window(policy, [a, b, a]) != Recent(policy, [a, b, a])
  {
    var h := [a, b, a];
    assert InWindow(policy, h[0], h[2].time) && !InWindow(policy, h[0], h[1].time);
    WindowIsRecentExactly(policy, h);
  }

  // ---- what is counted -----------------------------------------------------------------------

  /** The window reaches back from `t` by its length and no further, and nothing later than `t` is in it. */
  lemma InWindowExact(policy: Policy, x: Observation, t: u64)
    ensures InWindow(policy, x, t) <==> 0 <= t - x.time <= policy.window
  {
  }

  /** A rise of entropy counts if there is one at all and it is at least the threshold. */
  lemma ScramblesExact(policy: Policy, x: Observation)
    ensures Scrambles(policy, x) <==> x.entropyAfter >= x.entropyBefore + Max(1, policy.entropyDelta)
  {
  }

  function Kinds(xs: seq<Observation>): (r: multiset<Kind>) {
    if xs == [] then multiset{} else Kinds(xs[..|xs| - 1]) + multiset{xs[|xs| - 1].kind}
  }

  lemma {:induction false} CountsByKind(xs: seq<Observation>)
    ensures Count(Writes, xs) == Kinds(xs)[Write] + Kinds(xs)[Truncate]
    ensures Count(Destroys, xs) == Kinds(xs)[Rename] + Kinds(xs)[Remove] + Kinds(xs)[Truncate]
  {
    if xs != [] { CountsByKind(xs[..|xs| - 1]); }
  }

  /**
   What a tally says about its observations: a truncation is both a write and a destructive operation, and only
   objects that are named are told apart.
   */
  lemma TallyExact(policy: Policy, xs: seq<Observation>)
    ensures var t, k := TallyOf(policy, xs), Kinds(xs);
      && t.writes == (k[Write] + k[Truncate]) % 0x1_0000_0000
      && t.destructive == (k[Rename] + k[Remove] + k[Truncate]) % 0x1_0000_0000
      && t.distinct == |Targets(xs)| % 0x1_0000_0000
      && (t.canary <==> Canary in k) && (t.tamper <==> RecoveryTamper in k)
      && (t.entropy <==> exists x :: x in xs && Scrambles(policy, x))
      && (t.trusted <==> forall x | x in xs :: x.trusted)
    ensures forall o: u64 :: o in Targets(xs) <==> o != 0 && exists x :: x in xs && x.target == o
  {
    hide Count, Scrambles, Kinds;
    CountsByKind(xs);
    forall k
      ensures k in Kinds(xs) <==> exists i | 0 <= i < |xs| :: xs[i].kind == k
    {
      KindSeen(xs, k);
    }
  }

  lemma {:induction false} KindSeen(xs: seq<Observation>, k: Kind)
    ensures k in Kinds(xs) <==> exists i | 0 <= i < |xs| :: xs[i].kind == k
  {
    if xs != [] {
      var front := xs[..|xs| - 1];
      KindSeen(front, k);
      assert forall i | 0 <= i < |front| :: front[i] == xs[i];
    }
  }

  /** An observation counts exactly if it names a process and a time; otherwise nothing happens at all. */
  lemma IgnoredExactly(policy: Policy, windows: Windows, x: Observation)
    ensures x.process == 0 || x.time == 0 ==>
      After(policy, windows, Seen(x)) == windows && Outcome(policy, windows, x) == Verdict(Normal, 0, 0, 0, 0, 0, false, false)
    ensures x.process != 0 && x.time != 0 ==>
      var held := Held(After(policy, windows, Seen(x)), x.process);
      held != [] && held[|held| - 1] == x && Outcome(policy, windows, x) == Judge(policy, TallyOf(policy, held))
  {
    hide Judge, TallyOf, Prune;
  }

  // ---- the verdict ---------------------------------------------------------------------------

  /** What the four counted indicators are worth in every combination, in the order of the reason mask. */
  const WORTH: seq<int> := [0, 30, 35, 65, 25, 55, 60, 90, 20, 50, 55, 85, 45, 75, 80, 100]

  /** The score follows from the reasons given and from whether every observation was trusted; the counts are passed on. */
  lemma ScoreFromReasons(policy: Policy, t: Tally)
    ensures var v := Judge(policy, t);
      var worth := WORTH[v.reasons % 16];
      && v.score == (if t.tamper then 100 else if t.canary then Max(90, worth) else if t.trusted then Max(0, worth - 25)
                     else worth)
      && (v.severity.Confirmed? <==> v.score >= policy.containment)
      && (v.severity.Normal? <==> v.score < policy.containment && v.score < policy.suspicious)
      && (v.incident <==> !v.severity.Normal?)
      && (v.contain <==> v.severity.Confirmed? && (!t.trusted || t.canary || t.tamper))
      && v.writes == t.writes && v.destructive == t.destructive && v.distinct == t.distinct
  {
    RawScoreWorth(policy, t);
  }

  lemma RawScoreWorth(policy: Policy, t: Tally)
    ensures Min(100, RawScore(policy, t)) == WORTH[Reasons(policy, t) % 16]
  {
    var low := Points(t.writes >= policy.writes, 1) + Points(t.destructive >= policy.destructive, 2) + Points(t.entropy, 4)
      + Points(t.distinct >= policy.distinct, 8);
    assert Reasons(policy, t) % 16 == low;
  }

  /** `b` has seen at least what `a` has seen, and trusts it no more. */
  predicate AtLeast(a: Tally, b: Tally) {
    && a.writes <= b.writes && a.destructive <= b.destructive && a.distinct <= b.distinct
    && (a.canary ==> b.canary) && (a.tamper ==> b.tamper) && (a.entropy ==> b.entropy) && (b.trusted ==> a.trusted)
  }

  function Rank(s: Severity): nat {
    match s
    case Normal => 0
    case Suspicious => 1
    case Confirmed => 2
  }

  /** More evidence never lowers a verdict. */
  lemma VerdictMonotone(policy: Policy, a: Tally, b: Tally)
    requires Effective(policy) && AtLeast(a, b)
    ensures Judge(policy, a).score <= Judge(policy, b).score
    ensures Rank(Judge(policy, a).severity) <= Rank(Judge(policy, b).severity)
    ensures Judge(policy, a).incident ==> Judge(policy, b).incident
    ensures Judge(policy, a).contain ==> Judge(policy, b).contain
  {
    RawScoreMonotone(policy, a, b);
    ScoreMonotone(policy, a, b);
  }

  lemma RawScoreMonotone(policy: Policy, a: Tally, b: Tally)
    requires AtLeast(a, b)
    ensures RawScore(policy, a) <= RawScore(policy, b)
  {
  }

  lemma ScoreMonotone(policy: Policy, a: Tally, b: Tally)
    requires AtLeast(a, b) && RawScore(policy, a) <= RawScore(policy, b)
    ensures Score(policy, a) <= Score(policy, b)
  {
    hide RawScore;
  }

  /**
   The fixed points of the score: it never passes a hundred, tampering with recovery is always confirmed and
   contained, a canary is as long as containment needs no more than ninety, and a trusted process that touches
   neither is never contained and never scores above seventy-five.
   */
  lemma VerdictBounds(policy: Policy, t: Tally)
    requires Effective(policy)
    ensures Judge(policy, t).score <= 100
    ensures t.tamper ==> Judge(policy, t).score == 100 && Judge(policy, t).contain
    ensures t.canary && policy.containment <= 90 ==> Judge(policy, t).contain
    ensures t.trusted && !t.canary && !t.tamper ==> !Judge(policy, t).contain && Judge(policy, t).score <= 75
    ensures Judge(policy, t).contain ==> Judge(policy, t).incident && Judge(policy, t).severity.Confirmed?
  {
  }

  /** Bit `k` of the reason mask. */
  predicate ReasonBit(v: Verdict, k: nat) { Shr(v.reasons, k) % 2 == 1 }

  /** Every reason bit says exactly its own condition: no bit is carried into another. */
  lemma ReasonBitsExact(policy: Policy, t: Tally)
    ensures var v := Judge(policy, t);
      && (ReasonBit(v, 0) <==> t.writes >= policy.writes) && (ReasonBit(v, 1) <==> t.destructive >= policy.destructive)
      && (ReasonBit(v, 2) <==> t.entropy) && (ReasonBit(v, 3) <==> t.distinct >= policy.distinct)
      && (ReasonBit(v, 4) <==> t.canary) && (ReasonBit(v, 5) <==> t.tamper) && v.reasons < 64
  {
    hide Score, Grade, BitStream.Value;
    var bits := [t.writes >= policy.writes, t.destructive >= policy.destructive, t.entropy,
                 t.distinct >= policy.distinct, t.canary, t.tamper];
    SixBits(bits);
    forall k: nat
      ensures k < 6 ==> (Shr(BitStream.Value(bits), k) % 2 == 1) == bits[k]
    {
      BitStream.BitOfValue(bits, k);
    }
  }

  /** The value of the bits from `k` on. */
  function ValueFrom(b: seq<bool>, k: nat): nat
    requires k <= |b|
  {
    BitStream.Value(b[k..])
  }

  lemma FirstBit(b: seq<bool>, k: nat)
    requires k < |b|
    ensures ValueFrom(b, k) == Points(b[k], 1) + 2 * ValueFrom(b, k + 1)
  {
    assert b[k..][1..] == b[k + 1..];
  }

  lemma AllBits(b: seq<bool>)
    ensures ValueFrom(b, 0) == BitStream.Value(b) && ValueFrom(b, |b|) == 0
  {
    assert b[0..] == b;
  }

  lemma ThreeBits(b: seq<bool>, k: nat)
    requires k + 3 <= |b|
    ensures ValueFrom(b, k)
      == Points(b[k], 1) + 2 * Points(b[k + 1], 1) + 4 * Points(b[k + 2], 1) + 8 * ValueFrom(b, k + 3)
  {
    hide ValueFrom, Points;
    FirstBit(b, k);
    FirstBit(b, k + 1);
    FirstBit(b, k + 2);
  }

  lemma SixPoints(v: nat, w: nat, b0: bool, b1: bool, b2: bool, b3: bool, b4: bool, b5: bool)
    requires v == Points(b0, 1) + 2 * Points(b1, 1) + 4 * Points(b2, 1) + 8 * w
    requires w == Points(b3, 1) + 2 * Points(b4, 1) + 4 * Points(b5, 1)
    ensures v == Points(b0, 1) + Points(b1, 2) + Points(b2, 4) + Points(b3, 8) + Points(b4, 16) + Points(b5, 32)
  {
  }

  lemma SixBits(b: seq<bool>)
    requires |b| == 6
    ensures BitStream.Value(b) == Points(b[0], 1) + Points(b[1], 2) + Points(b[2], 4) + Points(b[3], 8) + Points(b[4], 16)
                                  + Points(b[5], 32)
  {
    hide BitStream.Value, ValueFrom, Points;
    AllBits(b);
    ThreeBits(b, 0);
    ThreeBits(b, 3);
    SixPoints(ValueFrom(b, 0), ValueFrom(b, 3), b[0], b[1], b[2], b[3], b[4], b[5]);
  }

  /** The thresholds the detector is shipped with. */
  const DEFAULT: Policy := Policy(10_000_000_000, 96, 24, 64, 1200, 50, 80)

  /** How many of the three other indicators accompany a destructive burst. */
  function Company(t: Tally): nat {
    Points(t.writes >= 96, 1) + Points(t.distinct >= 64, 1) + Points(t.entropy, 1)
  }

  /**
   What the shipped thresholds amount to without canary and recovery tampering. An untrusted process is
   confirmed exactly on a destructive burst with two other indicators, and unsuspicious exactly with at most
   one indicator or with just many objects and rising entropy. A trusted one is suspicious exactly with three
   indicators and never confirmed.
   */
  lemma ShippedDecisions(t: Tally)
    requires !t.canary && !t.tamper
    ensures var s := Judge(DEFAULT, t).severity;
      var burst := t.destructive >= 24;
      if t.trusted then
        !s.Confirmed? && (s.Suspicious? <==> Company(t) + Points(burst, 1) >= 3)
      else
        && (s.Confirmed? <==> burst && Company(t) >= 2)
        && (s.Normal? <==> Company(t) + Points(burst, 1) <= 1 || (!burst && t.writes < 96))
  {
  }
}
