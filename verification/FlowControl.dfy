/** Flow limits: the token bucket's rate bound over whole runs, and the table of live UDP sessions. */
module FlowControl {
  import opened Bytes

  const NANOS: nat := 1_000_000_000
  const TWO_32: nat := 0x1_0000_0000
  const TWO_64: nat := 0x1_0000_0000_0000_0000

  datatype Status = Ok | InvalidArgument | OutOfBudget

  // ---- the token bucket ----------------------------------------------------------------------

  /** The fixed limits of a bucket. */
  datatype Limits = Limits(capacity: u32, rate: u32)
  /** What a bucket updates; a `lastRefill` of zero means that no time has been seen yet. */
  datatype Level = Level(tokens: u32, lastRefill: u64)
  datatype Call = Call(now: u64, cost: u32)

  predicate Accepts(limits: Limits, cost: u32) {
    limits.capacity != 0 && limits.rate != 0 && cost <= limits.capacity
  }

  /** Tokens credited for a stretch of time: the product wraps at 64 bits before it is divided. */
  function Credit(limits: Limits, elapsed: u64): (r: u32)
    ensures r <= limits.capacity
  {
    Min(limits.capacity, (elapsed * limits.rate) % TWO_64 / NANOS)
  }

  function Started(b: Level, now: u64): Level {
    if b.lastRefill == 0 then b.(lastRefill := now) else b
  }

  /** The sum wraps at 32 bits before it is capped. */
  function AddTokens(limits: Limits, tokens: u32, credit: u32): (r: u32)
    ensures r <= limits.capacity && r <= tokens + credit
    ensures tokens + credit <= limits.capacity ==> r == tokens + credit
  {
    Min(limits.capacity, (tokens + credit) % TWO_32)
  }

  function Refilled(limits: Limits, b: Level, now: u64): Level {
    var s := Started(b, now);
    if now <= s.lastRefill then s
    else
      var credit := Credit(limits, now - s.lastRefill);
      Level(AddTokens(limits, s.tokens, credit), if credit > 0 then now else s.lastRefill)
  }

  function Verdict(limits: Limits, b: Level, call: Call): Status {
    if !Accepts(limits, call.cost) then InvalidArgument
    else if Refilled(limits, b, call.now).tokens < call.cost then OutOfBudget
    else Ok
  }

  function After(limits: Limits, b: Level, call: Call): Level {
    if !Accepts(limits, call.cost) then b
    else
      var f := Refilled(limits, b, call.now);
      if f.tokens < call.cost then f else f.(tokens := f.tokens - call.cost)
  }

  function Grant(limits: Limits, b: Level, call: Call): nat {
    if Verdict(limits, b, call).Ok? then call.cost else 0
  }

  class TokenBucket {
    const limits: Limits
    var tokens: u32
    var lastRefill: u64

    ghost function Contents(): Level
      reads this
    {
      Level(tokens, lastRefill)
    }

    constructor (capacity: u32, refillPerSecond: u32)
      ensures limits == Limits(capacity, refillPerSecond) && Contents() == Fresh(limits)
    {
      limits := Limits(capacity, refillPerSecond);
      tokens, lastRefill := capacity, 0;
    }

    method Consume(now: u64, cost: u32) returns (s: Status)
      modifies this
      ensures s == Verdict(limits, old(Contents()), Call(now, cost))
      ensures Contents() == After(limits, old(Contents()), Call(now, cost))
    {
      if limits.capacity == 0 || limits.rate == 0 || cost > limits.capacity { return InvalidArgument; }
      if lastRefill == 0 { lastRefill := now; }
      if now > lastRefill {
        var elapsed := now - lastRefill;
        var refill := Min(limits.capacity, (elapsed * limits.rate) % TWO_64 / NANOS);
        tokens := Min(limits.capacity, (tokens + refill) % TWO_32);
        if refill > 0 { lastRefill := now; }
      }
      if tokens < cost { return OutOfBudget; }
      tokens := tokens - cost;
      return Ok;
    }
  }

  // ---- runs of the bucket --------------------------------------------------------------------

  function Fresh(limits: Limits): Level { Level(limits.capacity, 0) }

  function Run(limits: Limits, b: Level, calls: seq<Call>): Level
    decreases |calls|
  {
    if calls == [] then b else Run(limits, After(limits, b, calls[0]), calls[1..])
  }

  /** The total cost of the calls that were let through. */
  function Granted(limits: Limits, b: Level, calls: seq<Call>): nat
    decreases |calls|
  {
    if calls == [] then 0
    else Grant(limits, b, calls[0]) + Granted(limits, After(limits, b, calls[0]), calls[1..])
  }

  /** What `rate` tokens a second earn over a stretch of time, in billionths of a token. */
  function Accrued(limits: Limits, elapsed: nat): nat { limits.rate * elapsed }

  predicate Between(calls: seq<Call>, lo: u64, hi: u64) {
    forall i | 0 <= i < |calls| :: lo <= calls[i].now <= hi
  }

  predicate Ordered(calls: seq<Call>) {
    forall i, j | 0 <= i < j < |calls| :: calls[i].now <= calls[j].now
  }

  lemma AccruedSum(limits: Limits, a: nat, b: nat)
    ensures Accrued(limits, a) + Accrued(limits, b) == Accrued(limits, a + b)
  {
  }

  /** No call leaves more tokens than the capacity. */
  lemma {:induction false} TokensCapped(limits: Limits, b: Level, calls: seq<Call>)
    requires b.tokens <= limits.capacity
    ensures Run(limits, b, calls).tokens <= limits.capacity
    decreases |calls|
  {
    hide Credit, AddTokens;
    if calls != [] { TokensCapped(limits, After(limits, b, calls[0]), calls[1..]); }
  }

  lemma Division(a: nat, d: nat)
    requires d > 0
    ensures a / d * d <= a < a / d * d + d
  {
  }

  lemma Remainder(a: nat, m: nat)
    requires m > 0
    ensures 0 <= a % m < m && a % m <= a
    ensures a < m ==> a % m == a
  {
  }

  /** A wrapped sum is at most the wrapped first part and the whole second. */
  lemma WrappedSum(a: nat, b: nat)
    ensures (a + b) % TWO_64 <= a % TWO_64 + b
  {
  }

  function Wrapped(limits: Limits, elapsed: nat): nat { Accrued(limits, elapsed) % TWO_64 }

  /** Whatever wraps, time never earns more than the nominal rate. */
  lemma CreditBound(limits: Limits, elapsed: u64)
    ensures Credit(limits, elapsed) * NANOS <= Wrapped(limits, elapsed) <= Accrued(limits, elapsed)
    ensures limits.capacity > 0 && Credit(limits, elapsed) == 0 ==> Wrapped(limits, elapsed) < NANOS
  {
    assert elapsed * limits.rate == Accrued(limits, elapsed);
    Division(Wrapped(limits, elapsed), NANOS);
    Remainder(Accrued(limits, elapsed), TWO_64);
  }

  lemma StepEarns(limits: Limits, b: Level, call: Call)
    requires b.lastRefill != 0
    ensures After(limits, b, call).lastRefill >= b.lastRefill
    ensures After(limits, b, call).lastRefill <= Max(b.lastRefill, call.now)
    ensures (Grant(limits, b, call) + After(limits, b, call).tokens) * NANOS
         <= b.tokens * NANOS + Accrued(limits, After(limits, b, call).lastRefill - b.lastRefill)
  {
    hide Credit, AddTokens, Accrued, Wrapped;
    if Accepts(limits, call.cost) && call.now > b.lastRefill {
      CreditBound(limits, call.now - b.lastRefill);
    }
  }

  /** From a bucket that has seen a time, what is granted is what was there and what time has earned since. */
  lemma {:induction false} RunEarns(limits: Limits, b: Level, calls: seq<Call>, hi: u64)
    requires b.lastRefill != 0 && Between(calls, 0, hi)
    ensures b.lastRefill <= Run(limits, b, calls).lastRefill <= Max(b.lastRefill, hi)
    ensures (Granted(limits, b, calls) + Run(limits, b, calls).tokens) * NANOS
         <= b.tokens * NANOS + Accrued(limits, Run(limits, b, calls).lastRefill - b.lastRefill)
    decreases |calls|
  {
    hide After, Grant, Accrued;
    if calls != [] {
      var next := After(limits, b, calls[0]);
      StepEarns(limits, b, calls[0]);
      RunEarns(limits, next, calls[1..], hi);
      var end := Run(limits, next, calls[1..]).lastRefill;
      AccruedSum(limits, next.lastRefill - b.lastRefill, end - next.lastRefill);
    }
  }

  lemma AccruedGrows(limits: Limits, a: nat, b: nat)
    requires a <= b
    ensures Accrued(limits, a) <= Accrued(limits, b)
  {
    AccruedSum(limits, a, b - a);
  }

  lemma {:induction false} UnstartedRun(limits: Limits, b: Level, calls: seq<Call>, lo: u64, hi: u64)
    requires b.lastRefill == 0 && lo <= hi && Between(calls, lo, hi)
    ensures Granted(limits, b, calls) * NANOS <= b.tokens * NANOS + Accrued(limits, hi - lo)
    decreases |calls|
  {
    hide Credit, AddTokens, Accrued;
    if calls != [] {
      var next := After(limits, b, calls[0]);
      assert Grant(limits, b, calls[0]) + next.tokens == b.tokens;
      if next.lastRefill == 0 {
        UnstartedRun(limits, next, calls[1..], lo, hi);
      } else {
        RunEarns(limits, next, calls[1..], hi);
        AccruedGrows(limits, Run(limits, next, calls[1..]).lastRefill - next.lastRefill, hi - lo);
      }
    }
  }

  lemma WholeTokens(a: nat, b: nat, c: nat)
    requires a * NANOS <= b * NANOS + c
    ensures a <= b + c / NANOS
  {
  }

  /**
   The rate bound. Over any run of a fresh bucket, with its calls in any order and whatever wraps, the
   total granted is at most the capacity and what the rate earns between the earliest and latest call.
   */
  lemma RateBound(limits: Limits, calls: seq<Call>, lo: u64, hi: u64)
    requires lo <= hi && Between(calls, lo, hi)
    ensures Granted(limits, Fresh(limits), calls) <= limits.capacity + limits.rate * (hi - lo) / NANOS
  {
    hide Granted;
    UnstartedRun(limits, Fresh(limits), calls, lo, hi);
    WholeTokens(Granted(limits, Fresh(limits), calls), limits.capacity, Accrued(limits, hi - lo));
  }

  /** Time too short to earn a token is kept for later, so it adds less than one token to a later window. */
  lemma {:induction false} CarriedRun(limits: Limits, b: Level, calls: seq<Call>, lo: u64, hi: u64)
    requires 0 < b.lastRefill < lo <= hi && Between(calls, lo, hi) && Ordered(calls)
    requires Wrapped(limits, lo - b.lastRefill) < NANOS
    ensures Granted(limits, b, calls) * NANOS <= b.tokens * NANOS + NANOS - 1 + Accrued(limits, hi - lo)
    decreases |calls|
  {
    hide Credit, AddTokens, Accrued, Wrapped;
    if calls != [] {
      var call := calls[0];
      var next := After(limits, b, call);
      if next.lastRefill == b.lastRefill {
        if Accepts(limits, call.cost) {
          CreditBound(limits, call.now - b.lastRefill);
          CarriedRun(limits, next, calls[1..], call.now, hi);
          AccruedGrows(limits, hi - call.now, hi - lo);
        } else {
          CarriedRun(limits, next, calls[1..], lo, hi);
        }
      } else {
        CarriedCredit(limits, b.lastRefill, lo, call.now);
        RunEarns(limits, next, calls[1..], hi);
        AccruedGrows(limits, Run(limits, next, calls[1..]).lastRefill - next.lastRefill, hi - call.now);
        AccruedSum(limits, call.now - lo, hi - call.now);
      }
    }
  }

  lemma CarriedCredit(limits: Limits, last: u64, lo: u64, now: u64)
    requires last < lo <= now && Wrapped(limits, lo - last) < NANOS
    ensures Credit(limits, now - last) * NANOS <= NANOS - 1 + Accrued(limits, now - lo)
  {
    hide Credit, Accrued;
    CreditBound(limits, now - last);
    AccruedSum(limits, lo - last, now - lo);
    WrappedSum(Accrued(limits, lo - last), Accrued(limits, now - lo));
  }

  lemma {:induction false} WindowRun(limits: Limits, b: Level, calls: seq<Call>, lo: u64, hi: u64)
    requires b.tokens <= limits.capacity && lo <= hi && Between(calls, lo, hi) && Ordered(calls)
    ensures Granted(limits, b, calls) * NANOS <= limits.capacity * NANOS + NANOS - 1 + Accrued(limits, hi - lo)
    decreases |calls|
  {
    hide Credit, AddTokens, Accrued, Wrapped;
    if b.lastRefill == 0 {
      UnstartedRun(limits, b, calls, lo, hi);
    } else if b.lastRefill >= lo {
      RunEarns(limits, b, calls, hi);
      AccruedGrows(limits, Run(limits, b, calls).lastRefill - b.lastRefill, hi - lo);
    } else if calls != [] {
      var call := calls[0];
      var next := After(limits, b, call);
      if !Accepts(limits, call.cost) {
        WindowRun(limits, b, calls[1..], lo, hi);
      } else if next.lastRefill == call.now {
        RunEarns(limits, next, calls[1..], hi);
        AccruedGrows(limits, Run(limits, next, calls[1..]).lastRefill - call.now, hi - lo);
      } else {
        CreditBound(limits, call.now - b.lastRefill);
        CarriedRun(limits, next, calls[1..], call.now, hi);
        AccruedGrows(limits, hi - call.now, hi - lo);
      }
    }
  }

  /**
   The same bound on any window of a run, whatever came before it: with a clock that does not go back, the
   calls inside it are granted at most the capacity, what the window itself earns, and less than one token more.
   */
  lemma WindowBound(limits: Limits, b: Level, calls: seq<Call>, lo: u64, hi: u64)
    requires b.tokens <= limits.capacity && lo <= hi && Between(calls, lo, hi) && Ordered(calls)
    ensures Granted(limits, b, calls) <= limits.capacity + (limits.rate * (hi - lo) + NANOS - 1) / NANOS
  {
    hide Granted;
    WindowRun(limits, b, calls, lo, hi);
    WholeTokens(Granted(limits, b, calls), limits.capacity, Accrued(limits, hi - lo) + NANOS - 1);
  }

  // ---- what a caller is promised in return ---------------------------------------------------

  /**
   A refill, as long as neither the product nor the sum wraps: what time has earned is added in whole tokens, up
   to the capacity, and the clock moves on only when there is one; the first time seen starts it.
   */
  lemma RefillExact(limits: Limits, b: Level, now: u64)
    requires b.tokens <= limits.capacity && 0 < limits.capacity < 0x8000_0000
    requires b.lastRefill != 0 && now > b.lastRefill ==> limits.rate * (now - b.lastRefill) < 0x1_0000_0000_0000_0000
    ensures var r := Refilled(limits, b, now);
      if b.lastRefill == 0 then r == Level(b.tokens, now)
      else if now <= b.lastRefill then r == b
      else
        var earned := limits.rate * (now - b.lastRefill);
        && r.tokens == Min(limits.capacity, b.tokens + earned / 1_000_000_000)
        && r.lastRefill == if earned >= 1_000_000_000 then now else b.lastRefill
  {
    if b.lastRefill != 0 && now > b.lastRefill {
      var elapsed := now - b.lastRefill;
      hide Credit;
      CreditExact(limits, elapsed);
      Division(limits.rate * elapsed, NANOS);
    }
  }

  /** A call that asks for no more than is there is granted and paid for, one that asks for more is refused. */
  lemma GrantedExactly(limits: Limits, b: Level, call: Call)
    ensures Verdict(limits, b, call).InvalidArgument? <==>
      limits.capacity == 0 || limits.rate == 0 || call.cost > limits.capacity
    ensures Verdict(limits, b, call).InvalidArgument? ==> After(limits, b, call) == b
    ensures !Verdict(limits, b, call).InvalidArgument? ==>
      var r := Refilled(limits, b, call.now);
      && (Verdict(limits, b, call).Ok? <==> call.cost <= r.tokens)
      && After(limits, b, call) == if call.cost <= r.tokens then r.(tokens := r.tokens - call.cost) else r
  {
    hide Refilled;
  }

  /** For capacities below 2^31, whatever the tokens kept so far pay for is granted, at any time. */
  lemma KeptTokensSuffice(limits: Limits, b: Level, call: Call)
    requires limits.capacity < 0x8000_0000 && b.tokens <= limits.capacity && limits.rate > 0
    requires 0 < limits.capacity && call.cost <= b.tokens
    ensures Verdict(limits, b, call).Ok?
  {
    hide Credit;
  }

  /** The credit is the nominal one up to the capacity exactly when the product fits, or its remainder is still enough. */
  lemma CreditExact(limits: Limits, elapsed: u64)
    ensures var nominal := limits.rate * elapsed;
      Credit(limits, elapsed) == Min(limits.capacity, nominal / 1_000_000_000)
      <==> (nominal < 0x1_0000_0000_0000_0000 || nominal % 0x1_0000_0000_0000_0000 >= limits.capacity * 1_000_000_000)
  {
    var nominal := Accrued(limits, elapsed);
    var wrapped := Wrapped(limits, elapsed);
    assert elapsed * limits.rate == nominal;
    Division(nominal, NANOS);
    Division(wrapped, NANOS);
    Remainder(nominal, TWO_64);
    if nominal >= TWO_64 {
      assert nominal / NANOS >= limits.capacity;
      assert wrapped / NANOS >= limits.capacity <==> wrapped >= limits.capacity * NANOS;
    }
  }

  /** Neither the product nor the capacity cuts anything off at any call of the run. */
  predicate Uncapped(limits: Limits, b: Level, calls: seq<Call>)
    decreases |calls|
  {
    calls != [] ==>
      && (Accepts(limits, calls[0].cost) && calls[0].now > b.lastRefill ==>
            UncappedStep(limits, b.tokens, calls[0].now - b.lastRefill))
      && Uncapped(limits, After(limits, b, calls[0]), calls[1..])
  }

  predicate UncappedStep(limits: Limits, tokens: u32, elapsed: u64) {
    Accrued(limits, elapsed) < TWO_64 && tokens + Accrued(limits, elapsed) / NANOS <= limits.capacity
  }

  lemma UncappedCredit(limits: Limits, tokens: u32, elapsed: u64)
    requires UncappedStep(limits, tokens, elapsed)
    ensures AddTokens(limits, tokens, Credit(limits, elapsed)) == tokens + Credit(limits, elapsed)
    ensures Credit(limits, elapsed) > 0 ==> Accrued(limits, elapsed) <= 2 * Credit(limits, elapsed) * NANOS
    ensures Credit(limits, elapsed) == 0 ==> Accrued(limits, elapsed) < NANOS
  {
    assert elapsed * limits.rate == Accrued(limits, elapsed);
    Remainder(Accrued(limits, elapsed), TWO_64);
    Division(Accrued(limits, elapsed), NANOS);
  }

  /**
   As long as nothing is cut off, at least half of what time nominally earns up to the last refill is
   credited: the remainder dropped by the division is always less than the tokens credited with it.
   */
  lemma {:induction false} HalfIsCredited(limits: Limits, b: Level, calls: seq<Call>)
    requires b.lastRefill != 0 && Uncapped(limits, b, calls)
    ensures Run(limits, b, calls).lastRefill >= b.lastRefill
    ensures b.tokens * 2 * NANOS + limits.rate * (Run(limits, b, calls).lastRefill - b.lastRefill)
         <= (Granted(limits, b, calls) + Run(limits, b, calls).tokens) * 2 * NANOS
    decreases |calls|
  {
    hide Credit, AddTokens, Accrued, UncappedStep;
    if calls != [] {
      var call := calls[0];
      var next := After(limits, b, call);
      if Accepts(limits, call.cost) && call.now > b.lastRefill {
        UncappedCredit(limits, b.tokens, call.now - b.lastRefill);
      }
      HalfIsCredited(limits, next, calls[1..]);
      HalfAdds(limits, b.lastRefill, next.lastRefill, Run(limits, b, calls).lastRefill);
    }
  }

  lemma HalfAdds(limits: Limits, a: nat, b: nat, c: nat)
    requires a <= b <= c
    ensures limits.rate * (c - a) == Accrued(limits, b - a) + limits.rate * (c - b)
  {
  }

  /** The bucket keeps its tokens through a pause. */
  ghost predicate PausesAreFree(limits: Limits) {
    forall calls: seq<Call>, now: u64 ::
      Run(limits, Fresh(limits), calls).tokens <= Refilled(limits, Run(limits, Fresh(limits), calls), now).tokens
  }

  /**
   Waiting never costs tokens exactly for capacities below 2^31. From there on the 32-bit sum of a full
   bucket and a full credit wraps, and a bucket that was left idle long enough loses tokens.
   */
  lemma PausesAreFreeExactly(limits: Limits)
    requires limits.rate > 0
    ensures PausesAreFree(limits) <==> limits.capacity < 0x8000_0000
  {
    hide Run, Credit;
    if limits.capacity < 0x8000_0000 {
      forall calls: seq<Call>, now: u64
        ensures Run(limits, Fresh(limits), calls).tokens
             <= Refilled(limits, Run(limits, Fresh(limits), calls), now).tokens
      {
        TokensCapped(limits, Fresh(limits), calls);
      }
    } else {
      var calls, now := IdleLoses(limits);
    }
  }

  lemma IdleLoses(limits: Limits) returns (calls: seq<Call>, now: u64)
    requires limits.rate > 0 && limits.capacity >= 0x8000_0000
    ensures Refilled(limits, Run(limits, Fresh(limits), calls), now).tokens
          < Run(limits, Fresh(limits), calls).tokens
  {
    hide Credit;
    calls := [Call(1, 0)];
    assert Run(limits, Fresh(limits), calls) == Level(limits.capacity, 1);
    var wait := EnoughTime(limits);
    now := 1 + wait;
  }

  lemma EnoughTime(limits: Limits) returns (wait: u64)
    requires limits.rate > 0 && limits.capacity > 0
    ensures 0 < wait < TWO_64 - 1 && Credit(limits, wait) == limits.capacity
  {
    var target := limits.capacity * NANOS;
    var rounds := target / limits.rate;
    Division(target, limits.rate);
    AtMostProduct(rounds, limits.rate);
    wait := rounds + 1;
    assert wait * limits.rate == rounds * limits.rate + limits.rate;
    CreditOf(limits, wait);
  }

  lemma AtMostProduct(a: nat, b: nat)
    requires b > 0
    ensures a <= a * b
  {
  }

  lemma CreditOf(limits: Limits, wait: u64)
    requires limits.capacity * NANOS <= wait * limits.rate < TWO_64
    ensures Credit(limits, wait) == limits.capacity
  {
    var product := wait * limits.rate;
    assert product % TWO_64 == product;
    assert product / NANOS >= limits.capacity;
  }
}
