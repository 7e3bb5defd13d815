/** The store-and-forward queue of telemetry batches: who is kept, who is evicted, and where everything went. */
module FleetQueue {
  import opened Bytes

  /** Critical 0, response 1, security 2, operational 3, diagnostic 4. */
  type Priority = p: int | 0 <= p <= 4
  const RESPONSE: Priority := 1

  /** `content` stands for the fields the queue only carries. */
  datatype Batch = Batch(sequence: u64, priority: Priority, content: seq<byte>)
  datatype Queue = Queue(pending: seq<Batch>, dropped: nat)

  datatype Status = Ok | InvalidArgument | IntegrityFailure | OutOfBudget | NotFound

  predicate Urgent(b: Batch) { b.priority <= RESPONSE }

  /** Numbered in strictly increasing order from one, and no more than fit. */
  ghost predicate InOrder(capacity: nat, p: seq<Batch>) {
    && |p| <= capacity
    && (forall i | 0 <= i < |p| :: p[i].sequence > 0)
    && (forall i, j | 0 <= i < j < |p| :: p[i].sequence < p[j].sequence)
  }

  // ---- eviction ------------------------------------------------------------------------------

  /** The batch to give up: later ones are preferred only if they are strictly less urgent. */
  function Victim(p: seq<Batch>): (v: Option<nat>)
    ensures v.Some? ==> v.value < |p|
  {
    if p == [] then None
    else
      var last := |p| - 1;
      var before := Victim(p[..last]);
      if !Urgent(p[last]) && (before.None? || p[last].priority > p[before.value].priority) then Some(last) else before
  }

  /** The oldest of the least urgent, which is not urgent itself. */
  predicate IsVictim(p: seq<Batch>, v: nat) {
    && v < |p| && !Urgent(p[v])
    && (forall i | 0 <= i < |p| :: p[i].priority <= p[v].priority)
    && (forall i | 0 <= i < v :: p[i].priority < p[v].priority)
  }

  lemma {:induction false} VictimExact(p: seq<Batch>, v: nat)
    ensures Victim(p) == Some(v) <==> IsVictim(p, v)
    ensures Victim(p).None? <==> forall i | 0 <= i < |p| :: Urgent(p[i])
  {
    if p != [] {
      var last := |p| - 1;
      var before := p[..last];
      VictimExact(before, v);
      if Victim(before).Some? { VictimExact(before, Victim(before).value); }
      assert forall i | 0 <= i < last :: p[i] == before[i];
    }
  }

  function Without(p: seq<Batch>, v: nat): seq<Batch>
    requires v < |p|
  {
    p[..v] + p[v + 1..]
  }

  function AfterPush(capacity: nat, q: Queue, b: Batch): (Queue, Status) {
    var p := q.pending;
    if capacity == 0 || b.sequence == 0 then (q, InvalidArgument)
    else if p != [] && b.sequence <= p[|p| - 1].sequence then (q, IntegrityFailure)
    else if |p| != capacity then (Queue(p + [b], q.dropped), Ok)
    else
      match Victim(p)
      case None => (q, OutOfBudget)
      case Some(v) =>
        if b.priority > p[v].priority then (q.(dropped := q.dropped + 1), OutOfBudget)
        else (Queue(Without(p, v) + [b], q.dropped + 1), Ok)
  }

  // ---- acknowledgement -----------------------------------------------------------------------

  function Kept(p: seq<Batch>, through: u64): (r: seq<Batch>)
    ensures |r| <= |p|
  {
    if p == [] then []
    else
      var last := |p| - 1;
      Kept(p[..last], through) + (if p[last].sequence <= through then [] else [p[last]])
  }

  function AfterAcknowledge(q: Queue, through: u64): (Queue, Status) {
    var kept := Kept(q.pending, through);
    if through == 0 then (q, InvalidArgument)
    else (q.(pending := kept), if |kept| == |q.pending| then NotFound else Ok)
  }

  /** The batches an acknowledgement removes. */
  function Removed(p: seq<Batch>, through: u64): seq<Batch> { p[..|p| - |Kept(p, through)|] }

  predicate UpTo(p: seq<Batch>, n: u64) { forall i | 0 <= i < |p| :: p[i].sequence <= n }

  predicate Above(p: seq<Batch>, n: u64) { forall i | 0 <= i < |p| :: p[i].sequence > n }

  lemma {:induction false} AllCovered(p: seq<Batch>, through: u64)
    requires UpTo(p, through)
    ensures Kept(p, through) == []
  {
    if p != [] { AllCovered(p[..|p| - 1], through); }
  }

  /** It removes a prefix: exactly the batches it covers. */
  lemma {:induction false} RemovedIsCoveredPrefix(capacity: nat, p: seq<Batch>, through: u64)
    requires InOrder(capacity, p)
    ensures p == Removed(p, through) + Kept(p, through)
    ensures UpTo(Removed(p, through), through) && Above(Kept(p, through), through)
  {
    hide UpTo, Above, InOrder;
    if p == [] || p[|p| - 1].sequence <= through {
      OrderedUpTo(capacity, p, through);
      AllCovered(p, through);
      assert Removed(p, through) == p;
      AboveNone(through);
    } else {
      var before := p[..|p| - 1];
      assert before == p[0..|p| - 1];
      SliceKeepsOrder(capacity, p, 0, |p| - 1);
      RemovedIsCoveredPrefix(capacity, before, through);
      assert Removed(p, through) == Removed(before, through);
      AboveSnoc(Kept(before, through), p[|p| - 1], through);
    }
  }

  lemma OrderedUpTo(capacity: nat, p: seq<Batch>, n: u64)
    requires InOrder(capacity, p) && (p != [] ==> p[|p| - 1].sequence <= n)
    ensures UpTo(p, n)
  {
  }

  lemma AboveNone(n: u64)
    ensures Above([], n)
  {
  }

  lemma AboveSnoc(p: seq<Batch>, b: Batch, n: u64)
    requires Above(p, n) && b.sequence > n
    ensures Above(p + [b], n)
  {
  }

  // ---- the implementation --------------------------------------------------------------------

  class StoreForwardQueue {
    const capacity: nat
    var pending: seq<Batch>
    var dropped: nat

    function Contents(): Queue
      reads this
    {
      Queue(pending, dropped)
    }

    ghost predicate Valid()
      reads this
    {
      InOrder(capacity, pending)
    }

    constructor (capacity: nat)
      ensures Valid() && this.capacity == capacity && Contents() == Queue([], 0)
    {
      this.capacity := capacity;
      pending, dropped := [], 0;
    }

    method FindVictim() returns (v: Option<nat>)
      ensures v == Victim(pending)
    {
      v := None;
      for i := 0 to |pending|
        invariant v == Victim(pending[..i])
      {
        assert pending[..i + 1][..i] == pending[..i];
        if pending[i].priority > RESPONSE && (v.None? || pending[i].priority > pending[v.value].priority) {
          v := Some(i);
        }
      }
      assert pending[..|pending|] == pending;
    }

    method Push(b: Batch) returns (s: Status)
      requires Valid()
      modifies this
      ensures Valid()
      ensures (Contents(), s) == AfterPush(capacity, old(Contents()), b)
    {
      hide Victim;
      PushKeepsOrder(capacity, Contents(), b);
      if capacity == 0 || b.sequence == 0 { return InvalidArgument; }
      if pending != [] && b.sequence <= pending[|pending| - 1].sequence { return IntegrityFailure; }
      if |pending| == capacity {
        var v := FindVictim();
        if v.None? { return OutOfBudget; }
        if b.priority > pending[v.value].priority {
          dropped := dropped + 1;
          return OutOfBudget;
        }
        pending := Without(pending, v.value);
        dropped := dropped + 1;
      }
      pending := pending + [b];
      return Ok;
    }

    method Acknowledge(through: u64) returns (s: Status)
      requires Valid()
      modifies this
      ensures Valid()
      ensures (Contents(), s) == AfterAcknowledge(old(Contents()), through)
    {
      if through == 0 { return InvalidArgument; }
      var before := |pending|;
      var kept: seq<Batch> := [];
      for i := 0 to |pending|
        invariant pending == old(pending) && kept == Kept(pending[..i], through)
      {
        assert pending[..i + 1][..i] == pending[..i];
        if !(pending[i].sequence <= through) { kept := kept + [pending[i]]; }
      }
      assert pending[..|pending|] == pending;
      AcknowledgeKeepsOrder(capacity, pending, through);
      pending := kept;
      return if before == |pending| then NotFound else Ok;
    }
  }

  lemma WithoutKeepsOrder(capacity: nat, p: seq<Batch>, v: nat)
    requires InOrder(capacity, p) && v < |p|
    ensures InOrder(capacity, Without(p, v)) && |Without(p, v)| < capacity
    ensures forall i | 0 <= i < |Without(p, v)| :: Without(p, v)[i].sequence <= p[|p| - 1].sequence
  {
    assert forall i | 0 <= i < |p| - 1 :: Without(p, v)[i] == p[Skip(i, v)];
  }

  function Skip(i: nat, v: nat): nat { if i < v then i else i + 1 }

  lemma AppendKeepsOrder(capacity: nat, p: seq<Batch>, b: Batch)
    requires InOrder(capacity, p) && |p| < capacity && b.sequence > 0
    requires forall i | 0 <= i < |p| :: p[i].sequence < b.sequence
    ensures InOrder(capacity, p + [b])
  {
  }

  lemma LastIsLargest(capacity: nat, p: seq<Batch>)
    requires InOrder(capacity, p)
    ensures forall i | 0 <= i < |p| :: p[i].sequence <= p[|p| - 1].sequence
    ensures |p| <= capacity
  {
  }

  lemma PushKeepsOrder(capacity: nat, q: Queue, b: Batch)
    requires InOrder(capacity, q.pending)
    ensures InOrder(capacity, AfterPush(capacity, q, b).0.pending)
  {
    hide Victim, Without, InOrder;
    var p := q.pending;
    LastIsLargest(capacity, p);
    if AfterPush(capacity, q, b).1.Ok? {
      if |p| == capacity {
        WithoutKeepsOrder(capacity, p, Victim(p).value);
        AppendKeepsOrder(capacity, Without(p, Victim(p).value), b);
      } else {
        AppendKeepsOrder(capacity, p, b);
      }
    }
  }

  lemma SliceKeepsOrder(capacity: nat, p: seq<Batch>, i: nat, j: nat)
    requires InOrder(capacity, p) && i <= j <= |p|
    ensures InOrder(capacity, p[i..j])
  {
  }

  lemma AcknowledgeKeepsOrder(capacity: nat, p: seq<Batch>, through: u64)
    requires InOrder(capacity, p)
    ensures InOrder(capacity, Kept(p, through))
  {
    hide Kept, Removed, UpTo, Above, InOrder;
    RemovedIsCoveredPrefix(capacity, p, through);
    var n := |Removed(p, through)|;
    SliceKeepsOrder(capacity, p, n, |p|);
    assert Kept(p, through) == p[n..|p|];
  }

  // ---- runs ----------------------------------------------------------------------------------

  datatype Op = Pushed(batch: Batch) | Acknowledged(through: u64)

  /** The queue together with where every batch has gone. */
  datatype Ledger = Ledger(queue: Queue, accepted: seq<Batch>, evicted: seq<Batch>, acknowledged: seq<Batch>,
                           refused: nat)

  /** One more operation in the books: what entered, and what left and why. */
  function Book(capacity: nat, l: Ledger, op: Op): Ledger {
    var p := l.queue.pending;
    match op
    case Pushed(b) =>
      var (q, s) := AfterPush(capacity, l.queue, b);
      if s.Ok? then
        l.(queue := q, accepted := l.accepted + [b],
           evicted := if |p| == capacity && Victim(p).Some? then l.evicted + [p[Victim(p).value]] else l.evicted)
      else l.(queue := q, refused := l.refused + q.dropped - l.queue.dropped)
    case Acknowledged(n) =>
      l.(queue := AfterAcknowledge(l.queue, n).0,
         acknowledged := if n == 0 then l.acknowledged else l.acknowledged + Removed(p, n))
  }

  function Books(capacity: nat, ops: seq<Op>): Ledger {
    if ops == [] then Ledger(Queue([], 0), [], [], [], 0)
    else Book(capacity, Books(capacity, ops[..|ops| - 1]), ops[|ops| - 1])
  }

  ghost predicate Balanced(l: Ledger) {
    && multiset(l.accepted) == multiset(l.queue.pending) + multiset(l.evicted) + multiset(l.acknowledged)
    && l.queue.dropped == |l.evicted| + l.refused
    && (forall i | 0 <= i < |l.evicted| :: !Urgent(l.evicted[i]))
    && (l.queue.pending != [] ==>
          l.accepted != [] && l.queue.pending[|l.queue.pending| - 1] == l.accepted[|l.accepted| - 1])
  }

  lemma WithoutCounts(p: seq<Batch>, v: nat)
    requires v < |p|
    ensures multiset(p) == multiset(Without(p, v)) + multiset{p[v]}
  {
    assert p == p[..v] + ([p[v]] + p[v + 1..]);
  }

  lemma EvictCounts(p: seq<Batch>, v: nat, b: Batch, accepted: seq<Batch>, evicted: seq<Batch>, gone: multiset<Batch>)
    requires v < |p| && multiset(accepted) == multiset(p) + multiset(evicted) + gone
    ensures multiset(accepted + [b]) == multiset(Without(p, v) + [b]) + multiset(evicted + [p[v]]) + gone
  {
    hide Without;
    WithoutCounts(p, v);
  }

  lemma BookEvict(l: Ledger, b: Batch, v: nat)
    requires Balanced(l) && v < |l.queue.pending| && !Urgent(l.queue.pending[v])
    ensures var p := l.queue.pending;
      Balanced(l.(queue := Queue(Without(p, v) + [b], l.queue.dropped + 1), accepted := l.accepted + [b],
                            evicted := l.evicted + [p[v]]))
  {
    hide Without, Urgent;
    EvictCounts(l.queue.pending, v, b, l.accepted, l.evicted, multiset(l.acknowledged));
  }

  lemma BookAppend(l: Ledger, b: Batch)
    requires Balanced(l)
    ensures Balanced(l.(queue := Queue(l.queue.pending + [b], l.queue.dropped), accepted := l.accepted + [b]))
  {
    hide Urgent;
  }

  lemma BookRefused(l: Ledger)
    requires Balanced(l)
    ensures Balanced(l.(queue := l.queue.(dropped := l.queue.dropped + 1), refused := l.refused + 1))
  {
    hide Urgent;
  }

  lemma BookPush(capacity: nat, l: Ledger, b: Batch)
    requires Balanced(l)
    ensures Balanced(Book(capacity, l, Pushed(b)))
  {
    hide Victim, Without, Balanced;
    var p := l.queue.pending;
    var s := AfterPush(capacity, l.queue, b).1;
    if s.Ok? && |p| == capacity {
      var v := Victim(p).value;
      VictimExact(p, v);
      BookEvict(l, b, v);
    } else if s.Ok? {
      BookAppend(l, b);
    } else if s.OutOfBudget? && Victim(p).Some? {
      BookRefused(l);
    }
  }

  lemma BookAcknowledge(capacity: nat, l: Ledger, n: u64)
    requires Balanced(l) && InOrder(capacity, l.queue.pending)
    ensures Balanced(Book(capacity, l, Acknowledged(n)))
  {
    hide Kept, InOrder, Removed;
    var p := l.queue.pending;
    RemovedIsCoveredPrefix(capacity, p, n);
    assert multiset(p) == multiset(Removed(p, n)) + multiset(Kept(p, n));
    if Kept(p, n) != [] { assert Kept(p, n)[|Kept(p, n)| - 1] == p[|p| - 1]; }
  }

  /**
   Conservation over any run: the queue stays ordered and within its capacity, every accepted batch is still
   pending, was acknowledged or was evicted, only batches that are not urgent are ever evicted, and the drop
   counter counts the evicted and the refused.
   */
  lemma {:induction false} RunsBalance(capacity: nat, ops: seq<Op>)
    ensures InOrder(capacity, Books(capacity, ops).queue.pending)
    ensures Balanced(Books(capacity, ops))
  {
    hide AfterPush, Kept, InOrder, Balanced;
    if ops == [] {
      EmptyBalances(capacity);
    } else {
      var l := Books(capacity, ops[..|ops| - 1]);
      RunsBalance(capacity, ops[..|ops| - 1]);
      match ops[|ops| - 1] {
        case Pushed(b) =>
          PushKeepsOrder(capacity, l.queue, b);
          BookPush(capacity, l, b);
        case Acknowledged(n) =>
          AcknowledgeKeepsOrder(capacity, l.queue.pending, n);
          BookAcknowledge(capacity, l, n);
      }
    }
  }

  lemma EmptyBalances(capacity: nat)
    ensures InOrder(capacity, []) && Balanced(Ledger(Queue([], 0), [], [], [], 0))
  {
  }

  predicate Covered(ops: seq<Op>, from: nat, sequence: u64) {
    exists k :: from <= k < |ops| && ops[k].Acknowledged? && ops[k].through >= sequence
  }

  /** A critical or response batch leaves the queue only through an acknowledgement that covers it. */
  lemma {:induction false} UrgentStays(capacity: nat, ops: seq<Op>, from: nat, b: Batch)
    requires from <= |ops| && b in Books(capacity, ops[..from]).queue.pending && Urgent(b)
    ensures b in Books(capacity, ops).queue.pending || Covered(ops, from, b.sequence)
    decreases |ops|
  {
    hide AfterPush, Kept, AfterAcknowledge;
    if from < |ops| {
      var before := ops[..|ops| - 1];
      assert before[..from] == ops[..from];
      UrgentStays(capacity, before, from, b);
      if Covered(before, from, b.sequence) {
        var k :| from <= k < |before| && before[k].Acknowledged? && before[k].through >= b.sequence;
        assert ops[k] == before[k];
      } else {
        RunsBalance(capacity, before);
        var q := Books(capacity, before).queue;
        match ops[|before|] {
          case Pushed(x) => UrgentPush(capacity, q, x, b);
          case Acknowledged(n) => if n < b.sequence { UrgentAcknowledge(capacity, q, n, b); }
        }
      }
    } else {
      assert ops[..from] == ops;
    }
  }

  lemma UrgentPush(capacity: nat, q: Queue, x: Batch, b: Batch)
    requires b in q.pending && Urgent(b)
    ensures b in AfterPush(capacity, q, x).0.pending
  {
    hide Victim, IsVictim;
    var p := q.pending;
    if Victim(p).Some? {
      var v := Victim(p).value;
      VictimExact(p, v);
      VictimNotUrgent(p, v);
      StillThere(p, v, b);
    }
  }

  lemma VictimNotUrgent(p: seq<Batch>, v: nat)
    requires IsVictim(p, v)
    ensures v < |p| && !Urgent(p[v])
  {
  }

  lemma StillThere(p: seq<Batch>, v: nat, b: Batch)
    requires v < |p| && b in p && p[v] != b
    ensures b in Without(p, v)
  {
    var i :| 0 <= i < |p| && p[i] == b;
    assert Without(p, v)[if i < v then i else i - 1] == b;
  }

  lemma UrgentAcknowledge(capacity: nat, q: Queue, through: u64, b: Batch)
    requires InOrder(capacity, q.pending) && b in q.pending && through < b.sequence
    ensures b in AfterAcknowledge(q, through).0.pending
  {
    hide Kept, InOrder, Removed;
    RemovedIsCoveredPrefix(capacity, q.pending, through);
    assert b in Removed(q.pending, through) || b in Kept(q.pending, through);
  }

  /** The oldest of the least urgent batches, and security, operational or diagnostic itself. */
  predicate GivenUp(p: seq<Batch>, v: nat) {
    && v < |p| && p[v].priority >= 2
    && forall i | 0 <= i < |p| :: p[i].priority < p[v].priority || (p[i].priority == p[v].priority && v <= i)
  }

  /** What a push does in every case; the counter moves with every batch that is given up or refused for another. */
  lemma PushExact(capacity: nat, q: Queue, b: Batch)
    ensures var (after, status) := AfterPush(capacity, q, b);
      var p, late := q.pending, q.pending != [] && b.sequence <= q.pending[|q.pending| - 1].sequence;
      && (status.InvalidArgument? <==> capacity == 0 || b.sequence == 0)
      && (status.IntegrityFailure? <==> capacity > 0 && b.sequence > 0 && late)
      && (status.InvalidArgument? || status.IntegrityFailure? ==> after == q)
      && (status.OutOfBudget? ==> after.pending == p && |p| == capacity)
      && (status.OutOfBudget? ==>
            after.dropped == q.dropped + if exists i :: 0 <= i < |p| && p[i].priority >= 2 then 1 else 0)
      && (status.Ok? && |p| != capacity ==> after == Queue(p + [b], q.dropped))
      && (status.Ok? && |p| == capacity ==>
            exists v: nat :: GivenUp(p, v) && b.priority <= p[v].priority
                        && after == Queue(p[..v] + p[v + 1..] + [b], q.dropped + 1))
      && !status.NotFound?
  {
    hide Victim;
    var p := q.pending;
    if Victim(p).Some? {
      var v := Victim(p).value;
      VictimExact(p, v);
      assert GivenUp(p, v);
      assert p[v].priority >= 2;
    } else {
      VictimExact(p, 0);
    }
  }

  /** What an acknowledgement reports: whether it covered any batch at all. */
  lemma AcknowledgeExact(capacity: nat, q: Queue, through: u64)
    requires InOrder(capacity, q.pending)
    ensures var (after, status) := AfterAcknowledge(q, through);
      var covers := exists i :: 0 <= i < |q.pending| && q.pending[i].sequence <= through;
      && (status.InvalidArgument? <==> through == 0)
      && (status.Ok? <==> through != 0 && covers)
      && (status.NotFound? <==> through != 0 && !covers)
      && (!status.Ok? ==> after == q) && after.dropped == q.dropped
  {
    hide Kept, InOrder;
    RemovedIsCoveredPrefix(capacity, q.pending, through);
    var p, kept, gone := q.pending, Kept(q.pending, through), Removed(q.pending, through);
    if |kept| == |p| {
      assert gone == [] && kept == p;
    } else {
      assert p[0] == gone[0];
    }
  }

  /** A push is turned away for want of room exactly when giving up any batch would lose a more urgent one. */
  lemma RefusedExactly(capacity: nat, q: Queue, b: Batch)
    requires capacity > 0 && b.sequence > 0
    requires q.pending != [] ==> q.pending[|q.pending| - 1].sequence < b.sequence
    ensures AfterPush(capacity, q, b).1.OutOfBudget? <==>
      |q.pending| == capacity && forall i | 0 <= i < |q.pending| :: Urgent(q.pending[i]) || q.pending[i].priority < b.priority
  {
    hide Victim;
    if Victim(q.pending).Some? { VictimExact(q.pending, Victim(q.pending).value); } else { VictimExact(q.pending, 0); }
  }

  /** A number at or below the last accepted one is taken again exactly when nothing is pending any more. */
  lemma ReplayExactly(capacity: nat, ops: seq<Op>, b: Batch)
    requires capacity > 0 && b.sequence > 0
    requires var a := Books(capacity, ops).accepted; a != [] && b.sequence <= a[|a| - 1].sequence
    ensures AfterPush(capacity, Books(capacity, ops).queue, b).1.Ok? <==> Books(capacity, ops).queue.pending == []
  {
    hide Books;
    RunsBalance(capacity, ops);
  }

  lemma TakenWhenEmpty(capacity: nat, l: Ledger, b: Batch)
    requires capacity > 0 && b.sequence > 0 && l.queue.pending == []
    ensures var m := Book(capacity, l, Pushed(b)); m.queue.pending == [b] && m.accepted == l.accepted + [b]
  {
    hide Victim;
  }

  lemma AcknowledgedAll(capacity: nat, l: Ledger, n: u64)
    requires n > 0 && UpTo(l.queue.pending, n)
    ensures var m := Book(capacity, l, Acknowledged(n)); m.queue.pending == [] && m.accepted == l.accepted
  {
    hide Kept;
    AllCovered(l.queue.pending, n);
  }

  lemma BooksSnoc(capacity: nat, ops: seq<Op>, op: Op)
    ensures Books(capacity, ops + [op]) == Book(capacity, Books(capacity, ops), op)
  {
    hide Book;
    assert (ops + [op])[..|ops|] == ops;
  }

  /** The run push, acknowledge, push, as 5, 5, 3: both batches are accepted, though the later one has the lower number. */
  lemma ReplayTaken(capacity: nat, a: Batch, b: Batch)
    requires capacity > 0 && a.sequence == 5 && b.sequence == 3
    ensures Books(capacity, [Pushed(a), Acknowledged(5), Pushed(b)]).accepted == [a, b]
  {
    hide Book, Books;
    var none, one, two: seq<Op> := [], [Pushed(a)], [Pushed(a), Acknowledged(5)];
    assert Books(capacity, none) == Ledger(Queue([], 0), [], [], [], 0) by { NoBooks(capacity); }
    assert none + [Pushed(a)] == one && one + [Acknowledged(5)] == two;
    assert two + [Pushed(b)] == [Pushed(a), Acknowledged(5), Pushed(b)];
    BooksSnoc(capacity, none, Pushed(a));
    TakenWhenEmpty(capacity, Books(capacity, none), a);
    BooksSnoc(capacity, one, Acknowledged(5));
    AcknowledgedAll(capacity, Books(capacity, one), 5);
    BooksSnoc(capacity, two, Pushed(b));
    TakenWhenEmpty(capacity, Books(capacity, two), b);
  }

  lemma NoBooks(capacity: nat)
    ensures Books(capacity, []) == Ledger(Queue([], 0), [], [], [], 0)
  {
  }
}
