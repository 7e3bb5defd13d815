/** The ransomware detector: what its sliding window holds, and the verdict drawn from it. */
module Ransomware {
  import opened Bytes

  const TWO_32: nat := 0x1_0000_0000

  datatype Kind = Write | Rename | Remove | Truncate | Canary | RecoveryTamper
  datatype Severity = Normal | Suspicious | Confirmed

  datatype Observation = Observation(process: u64, parent: u64, target: u64, time: u64, kind: Kind,
                                     entropyBefore: u32, entropyAfter: u32, trusted: bool)

  datatype Policy = Policy(window: u64, writes: u32, destructive: u32, distinct: u32, entropyDelta: u32,
                           suspicious: u32, containment: u32)

  datatype Verdict = Verdict(severity: Severity, score: u32, reasons: u32, writes: u32, destructive: u32,
                             distinct: u32, incident: bool, contain: bool)

  const NO_VERDICT := Verdict(Normal, 0, 0, 0, 0, 0, false, false)

  // ---- the window ----------------------------------------------------------------------------

  /** `x` lies in the window that ends at time `t`. */
  predicate InWindow(policy: Policy, x: Observation, t: u64) {
    (if t > policy.window then t - policy.window else 0) <= x.time <= t
  }

  function Prune(policy: Policy, xs: seq<Observation>, t: u64): seq<Observation> {
    if xs == [] then []
    else
      var last := |xs| - 1;
      Prune(policy, xs[..last], t) + (if InWindow(policy, xs[last], t) then [xs[last]] else [])
  }

  /** What a process's window holds after the observations `h`, each of which pruned what was there before it. */
  function Window(policy: Policy, h: seq<Observation>): seq<Observation> {
    if h == [] then []
    else
      var last := |h| - 1;
      Prune(policy, Window(policy, h[..last]), h[last].time) + [h[last]]
  }

  // ---- what is counted -----------------------------------------------------------------------

  predicate Writes(x: Observation) { x.kind.Write? || x.kind.Truncate? }

  predicate Destroys(x: Observation) { x.kind.Rename? || x.kind.Remove? || x.kind.Truncate? }

  predicate Scrambles(policy: Policy, x: Observation) {
    x.entropyAfter > x.entropyBefore && x.entropyAfter - x.entropyBefore >= policy.entropyDelta
  }

  function Count(p: Observation -> bool, xs: seq<Observation>): nat {
    if xs == [] then 0 else Count(p, xs[..|xs| - 1]) + if p(xs[|xs| - 1]) then 1 else 0
  }

  function Targets(xs: seq<Observation>): set<u64> { set i | 0 <= i < |xs| && xs[i].target != 0 :: xs[i].target }

  /** The counters are 32 bits wide. */
  datatype Tally = Tally(writes: u32, destructive: u32, distinct: u32, canary: bool, tamper: bool, entropy: bool,
                         trusted: bool)

  ghost function TallyOf(policy: Policy, xs: seq<Observation>): Tally {
    Tally(Count(Writes, xs) % TWO_32, Count(Destroys, xs) % TWO_32, |Targets(xs)| % TWO_32,
          exists i | 0 <= i < |xs| :: xs[i].kind.Canary?,
          exists i | 0 <= i < |xs| :: xs[i].kind.RecoveryTamper?,
          exists i | 0 <= i < |xs| :: Scrambles(policy, xs[i]),
          forall i | 0 <= i < |xs| :: xs[i].trusted)
  }

  // ---- the verdict ---------------------------------------------------------------------------

  function Points(b: bool, n: nat): nat { if b then n else 0 }

  function RawScore(policy: Policy, t: Tally): nat {
    Points(t.writes >= policy.writes, 30) + Points(t.destructive >= policy.destructive, 35)
    + Points(t.distinct >= policy.distinct, 20) + Points(t.entropy, 25)
  }

  function Reasons(policy: Policy, t: Tally): u32 {
    Points(t.writes >= policy.writes, 1) + Points(t.destructive >= policy.destructive, 2) + Points(t.entropy, 4)
    + Points(t.distinct >= policy.distinct, 8) + Points(t.canary, 16) + Points(t.tamper, 32)
  }

  function Score(policy: Policy, t: Tally): (r: u32)
    ensures r <= 100
  {
    if t.tamper then 100
    else if t.canary then Max(90, Min(100, RawScore(policy, t)))
    else if t.trusted then Max(0, Min(100, RawScore(policy, t)) - 25)
    else Min(100, RawScore(policy, t))
  }

  function Grade(policy: Policy, score: u32): Severity {
    if score >= policy.containment then Confirmed
    else if score >= policy.suspicious then Suspicious
    else Normal
  }

  function Judge(policy: Policy, t: Tally): Verdict {
    var severity := Grade(policy, Score(policy, t));
    Verdict(severity, Score(policy, t), Reasons(policy, t), t.writes, t.destructive, t.distinct, !severity.Normal?,
            severity.Confirmed? && (!t.trusted || t.canary || t.tamper))
  }

  // ---- the detector --------------------------------------------------------------------------

  type Windows = map<u64, seq<Observation>>

  function Held(windows: Windows, process: u64): seq<Observation> {
    if process in windows then windows[process] else []
  }

  /** An observation without a process or a time is ignored. */
  predicate Counts(x: Observation) { x.process != 0 && x.time != 0 }

  datatype Event = Seen(x: Observation) | Reset(process: u64)

  function After(policy: Policy, windows: Windows, e: Event): Windows {
    match e
    case Seen(x) =>
      if Counts(x) then windows[x.process := Prune(policy, Held(windows, x.process), x.time) + [x]] else windows
    case Reset(process) => windows - {process}
  }

  ghost function Outcome(policy: Policy, windows: Windows, x: Observation): Verdict {
    if Counts(x) then Judge(policy, TallyOf(policy, Held(After(policy, windows, Seen(x)), x.process))) else NO_VERDICT
  }

  /** Thresholds of at least one, scores of at most a hundred, and no containment below suspicion. */
  predicate Effective(policy: Policy) {
    && policy.window >= 1 && policy.writes >= 1 && policy.destructive >= 1 && policy.distinct >= 1
    && policy.suspicious <= policy.containment <= 100
  }

  class Detector {
    const policy: Policy
    var windows: Windows

    constructor (p: Policy)
      ensures windows == map[] && Effective(policy)
      ensures policy == Policy(Max(1, p.window), Max(1, p.writes), Max(1, p.destructive), Max(1, p.distinct),
                               p.entropyDelta, Min(100, p.suspicious), Min(100, Max(p.suspicious, p.containment)))
    {
      var q := p;
      if q.window == 0 { q := q.(window := 1); }
      if q.writes == 0 { q := q.(writes := 1); }
      if q.destructive == 0 { q := q.(destructive := 1); }
      if q.distinct == 0 { q := q.(distinct := 1); }
      if q.suspicious > 100 { q := q.(suspicious := 100); }
      if q.containment < q.suspicious { q := q.(containment := q.suspicious); }
      if q.containment > 100 { q := q.(containment := 100); }
      policy := q;
      windows := map[];
    }

    method Observe(x: Observation) returns (v: Verdict)
      modifies this
      ensures windows == After(policy, old(windows), Seen(x))
      ensures v == Outcome(policy, old(windows), x)
    {
      hide Judge, TallyOf;
      if x.process == 0 || x.time == 0 { return NO_VERDICT; }
      var values := Erase(policy, Held(windows, x.process), x.time);
      values := values + [x];
      windows := windows[x.process := values];
      var tally := Tallied(policy, values);
      v := Judged(policy, tally);
    }

    method Reset(process: u64)
      modifies this
      ensures windows == After(policy, old(windows), Event.Reset(process))
    {
      windows := windows - {process};
    }
  }

  method Erase(policy: Policy, xs: seq<Observation>, t: u64) returns (r: seq<Observation>)
    ensures r == Prune(policy, xs, t)
  {
    var oldest: u64 := if t > policy.window then t - policy.window else 0;
    r := [];
    for i := 0 to |xs|
      invariant r == Prune(policy, xs[..i], t)
    {
      assert xs[..i + 1][..i] == xs[..i];
      if !(xs[i].time < oldest || xs[i].time > t) { r := r + [xs[i]]; }
    }
    assert xs[..|xs|] == xs;
  }

  /** One more observation, all but the set of targets. */
  function Noted(policy: Policy, t: Tally, x: Observation): Tally {
    Tally((t.writes + if Writes(x) then 1 else 0) % TWO_32, (t.destructive + if Destroys(x) then 1 else 0) % TWO_32,
          t.distinct, t.canary || x.kind.Canary?, t.tamper || x.kind.RecoveryTamper?, t.entropy || Scrambles(policy, x),
          t.trusted && x.trusted)
  }

  method Tallied(policy: Policy, xs: seq<Observation>) returns (t: Tally)
    ensures t == TallyOf(policy, xs)
  {
    hide Scrambles, Writes, Destroys, Targets, TallyOf;
    var targets: set<u64> := {};
    t := Tally(0, 0, 0, false, false, false, true);
    TallyStart(policy, xs[..0]);
    for i := 0 to |xs|
      invariant targets == Targets(xs[..i])
      invariant t == TallyOf(policy, xs[..i]).(distinct := 0)
    {
      var x := xs[i];
      TallySnoc(policy, xs[..i], x);
      TargetsSnoc(xs[..i], x);
      assert xs[..i + 1] == xs[..i] + [x];
      t := t.(trusted := t.trusted && x.trusted);
      if x.target != 0 { targets := targets + {x.target}; }
      if Writes(x) { t := t.(writes := (t.writes + 1) % TWO_32); }
      if Destroys(x) { t := t.(destructive := (t.destructive + 1) % TWO_32); }
      t := t.(canary := t.canary || x.kind.Canary?);
      t := t.(tamper := t.tamper || x.kind.RecoveryTamper?);
      t := t.(entropy := t.entropy || Scrambles(policy, x));
    }
    assert xs[..|xs|] == xs;
    TallyDistinct(policy, xs);
    t := t.(distinct := |targets| % TWO_32);
  }

  lemma TallyStart(policy: Policy, xs: seq<Observation>)
    requires xs == []
    ensures Targets(xs) == {} && TallyOf(policy, xs) == Tally(0, 0, 0, false, false, false, true)
  {
  }

  lemma TallyDistinct(policy: Policy, xs: seq<Observation>)
    ensures TallyOf(policy, xs).distinct == |Targets(xs)| % TWO_32
  {
  }

  lemma TallySnoc(policy: Policy, xs: seq<Observation>, x: Observation)
    ensures TallyOf(policy, xs + [x]).(distinct := 0) == Noted(policy, TallyOf(policy, xs).(distinct := 0), x)
  {
    hide Scrambles, Writes, Destroys, Targets, Count;
    CountSnoc(Writes, xs, x);
    CountSnoc(Destroys, xs, x);
    FlagsSnoc(policy, xs, x);
    TrustSnoc(xs, x);
  }

  lemma FlagsSnoc(policy: Policy, xs: seq<Observation>, x: Observation)
    ensures var ys := xs + [x];
      && ((exists i | 0 <= i < |ys| :: ys[i].kind.Canary?) <==>
            (exists i | 0 <= i < |xs| :: xs[i].kind.Canary?) || x.kind.Canary?)
      && ((exists i | 0 <= i < |ys| :: ys[i].kind.RecoveryTamper?) <==>
            (exists i | 0 <= i < |xs| :: xs[i].kind.RecoveryTamper?) || x.kind.RecoveryTamper?)
      && ((exists i | 0 <= i < |ys| :: Scrambles(policy, ys[i])) <==>
            (exists i | 0 <= i < |xs| :: Scrambles(policy, xs[i])) || Scrambles(policy, x))
  {
    hide Scrambles;
    var ys := xs + [x];
    assert ys[|xs|] == x;
    assert forall i | 0 <= i < |xs| :: ys[i] == xs[i];
  }

  lemma TrustSnoc(xs: seq<Observation>, x: Observation)
    ensures var ys := xs + [x];
      (forall i | 0 <= i < |ys| :: ys[i].trusted) <==> (forall i | 0 <= i < |xs| :: xs[i].trusted) && x.trusted
  {
    var ys := xs + [x];
    assert ys[|xs|] == x;
    assert forall i | 0 <= i < |xs| :: ys[i] == xs[i];
  }

  lemma CountSnoc(p: Observation -> bool, xs: seq<Observation>, x: Observation)
    ensures Count(p, xs + [x]) == Count(p, xs) + if p(x) then 1 else 0
  {
    assert (xs + [x])[..|xs|] == xs;
  }

  lemma TargetsSnoc(xs: seq<Observation>, x: Observation)
    ensures Targets(xs + [x]) == Targets(xs) + (if x.target != 0 then {x.target} else {})
  {
    var ys := xs + [x];
    assert forall i | 0 <= i < |xs| :: ys[i] == xs[i];
    assert ys[|xs|] == x;
  }

  method Judged(policy: Policy, t: Tally) returns (v: Verdict)
    ensures v == Judge(policy, t)
  {
    var score, reasons := 0, 0;
    if t.writes >= policy.writes { score, reasons := score + 30, reasons + 1; }
    if t.destructive >= policy.destructive { score, reasons := score + 35, reasons + 2; }
    if t.distinct >= policy.distinct { score, reasons := score + 20, reasons + 8; }
    if t.entropy { score, reasons := score + 25, reasons + 4; }
    if t.canary { score, reasons := Max(score, 90), reasons + 16; }
    if t.tamper { score, reasons := 100, reasons + 32; }
    score := Min(score, 100);
    if t.trusted && !t.canary && !t.tamper { score := if score > 25 then score - 25 else 0; }
    var severity := Normal;
    if score >= policy.containment { severity := Confirmed; }
    else if score >= policy.suspicious { severity := Suspicious; }
    v := Verdict(severity, score, reasons, t.writes, t.destructive, t.distinct, severity != Normal,
                 severity == Confirmed && (!t.trusted || t.canary || t.tamper));
  }
}
