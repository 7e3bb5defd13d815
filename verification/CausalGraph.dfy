/** The causal graph: walking first parents back from a node ends at a root or runs into a cycle. */
module CausalGraph {
  import opened Bytes

  datatype Kind = Flow | File | Process | Egress

  /** `payload` stands for the identity hash and the correlation, which the graph only carries. */
  datatype Node = Node(id: nat, kind: Kind, payload: seq<byte>)
  datatype Edge = Edge(source: nat, target: nat)

  datatype Status = Ok | InvalidArgument
  datatype Chain = Found(nodes: seq<Node>) | NotFound | IntegrityFailure

  // ---- the graph -----------------------------------------------------------------------------

  predicate HasNode(nodes: seq<Node>, id: nat) { exists i | 0 <= i < |nodes| :: nodes[i].id == id }

  /** What AddNode and AddEdge keep: identifiers are unique and non-zero, edges join two different nodes. */
  ghost predicate WellFormed(nodes: seq<Node>, edges: seq<Edge>) {
    && (forall i | 0 <= i < |nodes| :: nodes[i].id != 0)
    && (forall i, j | 0 <= i < j < |nodes| :: nodes[i].id != nodes[j].id)
    && (forall e | 0 <= e < |edges| ::
          HasNode(nodes, edges[e].source) && HasNode(nodes, edges[e].target) && edges[e].source != edges[e].target)
  }

  /** The source of the first edge into `id`. */
  function Parent(edges: seq<Edge>, id: nat): Option<nat> {
    if edges == [] then None
    else if edges[0].target == id then Some(edges[0].source)
    else Parent(edges[1..], id)
  }

  /** The node reached from `id` by following first parents `k` times. */
  function Ancestor(edges: seq<Edge>, id: nat, k: nat): Option<nat> {
    if k == 0 then Some(id)
    else
      match Ancestor(edges, id, k - 1)
      case None => None
      case Some(a) => Parent(edges, a)
  }

  /** The walk has a `k`-th node, and that node has no parent. */
  predicate RootAt(edges: seq<Edge>, id: nat, k: nat) {
    Ancestor(edges, id, k).Some? && Parent(edges, Ancestor(edges, id, k).value).None?
  }

  /** The walk meets the same node twice. */
  predicate Repeats(edges: seq<Edge>, id: nat, i: nat, j: nat) {
    i < j && Ancestor(edges, id, i).Some? && Ancestor(edges, id, i) == Ancestor(edges, id, j)
  }

  ghost predicate ReachesRoot(edges: seq<Edge>, id: nat) { exists k: nat :: RootAt(edges, id, k) }

  ghost predicate EntersCycle(edges: seq<Edge>, id: nat) { exists i: nat, j: nat :: Repeats(edges, id, i, j) }

  lemma {:induction false} ParentIsEdge(edges: seq<Edge>, id: nat)
    ensures Parent(edges, id).Some? <==> exists e :: 0 <= e < |edges| && edges[e].target == id
    ensures Parent(edges, id).Some? ==>
      exists e :: 0 <= e < |edges| && edges[e] == Edge(Parent(edges, id).value, id)
        && forall f | 0 <= f < e :: edges[f].target != id
  {
    if edges != [] {
      if edges[0].target == id {
        assert edges[0] == Edge(Parent(edges, id).value, id);
      } else {
        ParentIsEdge(edges[1..], id);
        if Parent(edges, id).Some? {
          var e :| 0 <= e < |edges| - 1 && edges[1..][e] == Edge(Parent(edges, id).value, id)
            && forall f | 0 <= f < e :: edges[1..][f].target != id;
          assert edges[e + 1] == Edge(Parent(edges, id).value, id);
          assert forall f | 0 < f < e + 1 :: edges[f] == edges[1..][f - 1];
        } else {
          assert forall e | 0 < e < |edges| :: edges[e] == edges[1..][e - 1];
        }
      }
    }
  }

  // ---- the implementation --------------------------------------------------------------------

  class Graph {
    var nodes: seq<Node>
    var edges: seq<Edge>

    ghost predicate Valid()
      reads this
    {
      WellFormed(nodes, edges)
    }

    constructor ()
      ensures Valid() && nodes == [] && edges == []
    {
      nodes, edges := [], [];
    }

    method FindNode(id: nat) returns (r: Option<Node>)
      ensures r.None? <==> !HasNode(nodes, id)
      ensures r.Some? ==> r.value in nodes && r.value.id == id
    {
      for i := 0 to |nodes|
        invariant forall k | 0 <= k < i :: nodes[k].id != id
      {
        if nodes[i].id == id { return Some(nodes[i]); }
      }
      return None;
    }

    method AddNode(node: Node) returns (s: Status)
      requires Valid()
      modifies this
      ensures Valid() && edges == old(edges)
      ensures s.Ok? <==> node.id != 0 && !HasNode(old(nodes), node.id)
      ensures nodes == if s.Ok? then old(nodes) + [node] else old(nodes)
    {
      var known := FindNode(node.id);
      if node.id == 0 || known.Some? { return InvalidArgument; }
      HasNodeGrows(nodes, node);
      nodes := nodes + [node];
      return Ok;
    }

    method AddEdge(source: nat, target: nat) returns (s: Status)
      requires Valid()
      modifies this
      ensures Valid() && nodes == old(nodes)
      ensures s.Ok? <==> HasNode(nodes, source) && HasNode(nodes, target) && source != target
      ensures edges == if s.Ok? then old(edges) + [Edge(source, target)] else old(edges)
    {
      var a := FindNode(source);
      var b := FindNode(target);
      if a.None? || b.None? || source == target { return InvalidArgument; }
      edges := edges + [Edge(source, target)];
      return Ok;
    }

    /** The source of the first edge into `id`, found by scanning the edges in order. */
    method FindParent(id: nat) returns (r: Option<nat>)
      ensures r == Parent(edges, id)
    {
      for i := 0 to |edges|
        invariant Parent(edges, id) == Parent(edges[i..], id)
      {
        if edges[i].target == id { return Some(edges[i].source); }
        assert edges[i..][1..] == edges[i + 1..];
      }
      return None;
    }

    /**
     The chain of first parents from a root down to the node. It fails on an existing node exactly when the
     walk enters a cycle.
     */
    method ChainTo(id: nat) returns (r: Chain)
      requires Valid()
      ensures r.NotFound? <==> !HasNode(nodes, id)
      ensures r.Found? <==> HasNode(nodes, id) && ReachesRoot(edges, id)
      ensures r.IntegrityFailure? <==> HasNode(nodes, id) && EntersCycle(edges, id)
      ensures r.Found? ==> IsChain(nodes, edges, id, r.nodes)
    {
      var start := FindNode(id);
      if start.None? { return NotFound; }
      var current := start.value;
      var chain := [current];
      while true
        invariant |chain| >= 1 && current == chain[|chain| - 1] && |chain| <= |nodes|
        invariant IsWalk(nodes, edges, id, chain)
        decreases |nodes| - |chain|
      {
        var parent := FindParent(current.id);
        if parent.None? { break; }
        ParentExists(nodes, edges, current.id);
        var next := FindNode(parent.value);
        if next.None? { return IntegrityFailure; }
        current := next.value;
        chain := chain + [current];
        if |chain| > |nodes| {
          WalkTooLong(nodes, edges, id, chain);
          return IntegrityFailure;
        }
      }
      assert RootAt(edges, id, |chain| - 1);
      RootExcludesCycle(edges, id, |chain| - 1);
      WalkDistinct(nodes, edges, id, chain);
      var reversed := Reverse(chain);
      return Found(reversed);
    }
  }

  method Reverse(chain: seq<Node>) returns (r: seq<Node>)
    ensures |r| == |chain| && forall i | 0 <= i < |r| :: r[i] == chain[|chain| - 1 - i]
  {
    r := chain;
    var n := |chain|;
    for i := 0 to n / 2
      invariant |r| == n
      invariant forall k | 0 <= k < i :: r[k] == chain[n - 1 - k] && r[n - 1 - k] == chain[k]
      invariant forall k | i <= k < n - i :: r[k] == chain[k]
    {
      r := r[i := r[n - 1 - i]][n - 1 - i := r[i]];
    }
  }

  /** Step `k` of the walk is the `k`-th ancestor. */
  ghost predicate IsWalk(nodes: seq<Node>, edges: seq<Edge>, id: nat, chain: seq<Node>) {
    forall k | 0 <= k < |chain| :: chain[k] in nodes && Ancestor(edges, id, k) == Some(chain[k].id)
  }

  /** The walk written from its root: no node twice, each node the first parent of the next, ending at `id`. */
  ghost predicate IsChain(nodes: seq<Node>, edges: seq<Edge>, id: nat, chain: seq<Node>) {
    && chain != [] && chain[|chain| - 1].id == id && Parent(edges, chain[0].id).None?
    && (forall i | 0 <= i < |chain| :: chain[i] in nodes)
    && (forall i, j | 0 <= i < j < |chain| :: chain[i].id != chain[j].id)
    && (forall i | 0 <= i < |chain| - 1 :: Parent(edges, chain[i + 1].id) == Some(chain[i].id))
  }

  // ---- why it is right -----------------------------------------------------------------------

  lemma HasNodeGrows(nodes: seq<Node>, node: Node)
    ensures forall id: nat | HasNode(nodes, id) :: HasNode(nodes + [node], id)
  {
    forall id: nat | HasNode(nodes, id)
      ensures HasNode(nodes + [node], id)
    {
      var i :| 0 <= i < |nodes| && nodes[i].id == id;
      assert (nodes + [node])[i].id == id;
    }
  }

  lemma ParentExists(nodes: seq<Node>, edges: seq<Edge>, id: nat)
    requires WellFormed(nodes, edges)
    ensures Parent(edges, id).Some? ==> HasNode(nodes, Parent(edges, id).value)
  {
    ParentIsEdge(edges, id);
  }

  /** Equal ancestors have equal ancestors. */
  lemma {:induction false} AncestorsShift(edges: seq<Edge>, id: nat, i: nat, j: nat, n: nat)
    requires Ancestor(edges, id, i) == Ancestor(edges, id, j)
    ensures Ancestor(edges, id, i + n) == Ancestor(edges, id, j + n)
  {
    if n > 0 { AncestorsShift(edges, id, i, j, n - 1); }
  }

  lemma {:induction false} AncestorGone(edges: seq<Edge>, id: nat, k: nat, n: nat)
    requires Ancestor(edges, id, k).None?
    ensures Ancestor(edges, id, k + n).None?
  {
    if n > 0 { AncestorGone(edges, id, k, n - 1); }
  }

  /** Once a walk repeats a node it goes on for ever. */
  lemma {:induction false} CycleNeverEnds(edges: seq<Edge>, id: nat, i: nat, j: nat, k: nat)
    requires Repeats(edges, id, i, j)
    ensures !RootAt(edges, id, k)
    decreases k
  {
    if k >= j {
      AncestorsShift(edges, id, i, j, k - j);
      CycleNeverEnds(edges, id, i, j, k - j + i);
    } else if RootAt(edges, id, k) {
      AncestorGone(edges, id, k + 1, j - (k + 1));
    }
  }

  lemma RootExcludesCycle(edges: seq<Edge>, id: nat, k: nat)
    requires RootAt(edges, id, k)
    ensures !EntersCycle(edges, id)
  {
    if EntersCycle(edges, id) {
      var i: nat, j: nat :| Repeats(edges, id, i, j);
      CycleNeverEnds(edges, id, i, j, k);
    }
  }

  lemma WalkDistinct(nodes: seq<Node>, edges: seq<Edge>, id: nat, chain: seq<Node>)
    requires IsWalk(nodes, edges, id, chain) && chain != [] && RootAt(edges, id, |chain| - 1)
    ensures forall i, j | 0 <= i < j < |chain| :: chain[i].id != chain[j].id
  {
    forall i, j | 0 <= i < j < |chain|
      ensures chain[i].id != chain[j].id
    {
      if chain[i].id == chain[j].id {
        assert Repeats(edges, id, i, j);
        CycleNeverEnds(edges, id, i, j, |chain| - 1);
      }
    }
  }

  function Ids(nodes: seq<Node>): set<nat> { set i | 0 <= i < |nodes| :: nodes[i].id }

  lemma {:induction false} IdsBound(nodes: seq<Node>)
    ensures |Ids(nodes)| <= |nodes|
  {
    if nodes != [] {
      var last := |nodes| - 1;
      IdsBound(nodes[..last]);
      assert Ids(nodes) == Ids(nodes[..last]) + {nodes[last].id};
    }
  }

  lemma {:induction false} DistinctIds(nodes: seq<Node>)
    requires forall i, j | 0 <= i < j < |nodes| :: nodes[i].id != nodes[j].id
    ensures |Ids(nodes)| == |nodes|
  {
    if nodes != [] {
      var last := |nodes| - 1;
      DistinctIds(nodes[..last]);
      assert Ids(nodes) == Ids(nodes[..last]) + {nodes[last].id};
      assert nodes[last].id !in Ids(nodes[..last]);
    }
  }

  /** Pigeonhole: a walk longer than the graph has nodes repeats one. */
  lemma WalkTooLong(nodes: seq<Node>, edges: seq<Edge>, id: nat, chain: seq<Node>)
    requires IsWalk(nodes, edges, id, chain) && |chain| > |nodes|
    ensures EntersCycle(edges, id) && !ReachesRoot(edges, id)
  {
    if forall i, j | 0 <= i < j < |chain| :: chain[i].id != chain[j].id {
      DistinctIds(chain);
      IdsBound(nodes);
      assert Ids(chain) <= Ids(nodes);
      SubsetSize(Ids(chain), Ids(nodes));
    } else {
      var i, j :| 0 <= i < j < |chain| && chain[i].id == chain[j].id;
      assert Repeats(edges, id, i, j);
      forall k: nat
        ensures !RootAt(edges, id, k)
      {
        CycleNeverEnds(edges, id, i, j, k);
      }
    }
  }

  /** On a well-formed graph exactly one of the two happens. */
  lemma RootOrCycle(nodes: seq<Node>, edges: seq<Edge>, id: nat)
    requires WellFormed(nodes, edges) && HasNode(nodes, id)
    ensures ReachesRoot(edges, id) <==> !EntersCycle(edges, id)
  {
    if ReachesRoot(edges, id) {
      var k: nat :| RootAt(edges, id, k);
      RootExcludesCycle(edges, id, k);
    } else {
      var chain := EndlessWalk(nodes, edges, id, |nodes| + 1);
      WalkTooLong(nodes, edges, id, chain);
    }
  }

  lemma {:induction false} EndlessWalk(nodes: seq<Node>, edges: seq<Edge>, id: nat, n: nat) returns (chain: seq<Node>)
    requires WellFormed(nodes, edges) && HasNode(nodes, id) && !ReachesRoot(edges, id) && n > 0
    ensures |chain| == n && IsWalk(nodes, edges, id, chain)
  {
    if n == 1 {
      var i :| 0 <= i < |nodes| && nodes[i].id == id;
      chain := [nodes[i]];
    } else {
      var shorter := EndlessWalk(nodes, edges, id, n - 1);
      var last := shorter[n - 2].id;
      assert !RootAt(edges, id, n - 2);
      ParentExists(nodes, edges, last);
      var i :| 0 <= i < |nodes| && nodes[i].id == Parent(edges, last).value;
      chain := shorter + [nodes[i]];
    }
  }
}
