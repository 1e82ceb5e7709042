/**
 The metadata BOLT writes for an instrumented function, and what the profile
 writer computes from it: the frequency of every CFG edge, given counters on
 the edges outside a spanning forest. The computation is written here as a
 recursion over the forest; `ProfileGraph.dfy` holds the loops that carry it out.
 */
module FlowSpec {
  import opened Words

  /** The counter number of an edge or call that has no counter of its own. */
  const NO_COUNTER: nat := 0xffffffff

  datatype EdgeDescription = EdgeDescription(fromNode: nat, toNode: nat, counter: nat)
  datatype CallDescription = CallDescription(fromNode: nat, counter: nat, target: nat)
  datatype InstrumentedNode = InstrumentedNode(node: nat, counter: nat)
  datatype EntryNode = EntryNode(node: nat, address: nat)

  datatype FunctionDescription = FunctionDescription(
    leafNodes: seq<InstrumentedNode>,
    edges: seq<EdgeDescription>,
    calls: seq<CallDescription>,
    entryNodes: seq<EntryNode>)

  /** An entry of a node's in- or out-edge set: the other end, and the edge number. */
  datatype Edge = Edge(node: nat, id: nat)

  // ---------- 64-bit arithmetic ----------

  function ClampToZero(x: int): int { if x < 0 then 0 else x }

  lemma ToInt64Accumulates(a: int, b: int)
    ensures ToInt64(ToInt64(a) + b) == ToInt64(a + b)
  {
    var q := (a + TWO63) / TWO64;
    assert ToInt64(a) == a - q * TWO64;
    assert ToInt64(a) + b + TWO63 == (a + b + TWO63) - q * TWO64;
    WrapMultiple(-q, a + b + TWO63);
  }

  // ---------- The graph a description denotes ----------

  predicate TreeEdge(d: FunctionDescription, e: int) {
    0 <= e < |d.edges| && d.edges[e].counter == NO_COUNTER
  }

  /** `n` is above every node number that sizes the graph. */
  predicate Covers(d: FunctionDescription, n: int) {
    && (forall e :: 0 <= e < |d.edges| ==> d.edges[e].fromNode < n && d.edges[e].toNode < n)
    && (forall k :: 0 <= k < |d.leafNodes| ==> d.leafNodes[k].node < n)
    && (forall c :: 0 <= c < |d.calls| ==> d.calls[c].fromNode < n)
  }

  /** Counter numbers exist, counters are 64-bit, and entry nodes are nodes of the graph. */
  predicate CountersExist(d: FunctionDescription, counters: seq<nat>) {
    && (forall e :: 0 <= e < |d.edges| && d.edges[e].counter != NO_COUNTER ==> d.edges[e].counter < |counters|)
    && (forall c :: 0 <= c < |d.calls| && d.calls[c].counter != NO_COUNTER ==> d.calls[c].counter < |counters|)
    && (forall k :: 0 <= k < |d.leafNodes| ==> d.leafNodes[k].counter < |counters|)
    && (forall i :: 0 <= i < |counters| ==> counters[i] < TWO64)
    && (forall e :: 0 <= e < |d.edges| ==> d.edges[e].fromNode < 0x8000_0000 && d.edges[e].toNode < 0x8000_0000)
    && (forall k :: 0 <= k < |d.leafNodes| ==> d.leafNodes[k].node < 0x8000_0000)
    && (forall c :: 0 <= c < |d.calls| ==> d.calls[c].fromNode < 0x8000_0000)
  }

  predicate EntryNodesCovered(d: FunctionDescription, n: int) {
    && (forall i :: 0 <= i < |d.entryNodes| ==> d.entryNodes[i].node < n && d.entryNodes[i].address < TWO64)
    && (forall c :: 0 <= c < |d.calls| ==> d.calls[c].target < TWO64)
  }

  /** The uninstrumented edges give each node at most one parent. */
  ghost predicate Forest(d: FunctionDescription) {
    forall e, e' :: TreeEdge(d, e) && TreeEdge(d, e') && d.edges[e].toNode == d.edges[e'].toNode ==> e == e'
  }

  ghost predicate Root(d: FunctionDescription, v: int) {
    forall e :: TreeEdge(d, e) ==> d.edges[e].toNode != v
  }

  /** A height for every node that drops along every uninstrumented edge: there are no tree cycles. */
  ghost predicate Heights(d: FunctionDescription, n: nat, h: seq<nat>) {
    && Covers(d, n) && |h| == n
    && forall e :: TreeEdge(d, e) ==> h[d.edges[e].toNode] < h[d.edges[e].fromNode]
  }

  // ---------- Adjacency lists, in the order the constructor fills them ----------

  predicate Selected(d: FunctionDescription, tree: bool, e: nat)
    requires e < |d.edges|
  {
    tree ==> d.edges[e].counter == NO_COUNTER
  }

  function OutEdges(d: FunctionDescription, v: nat, tree: bool, i: nat): seq<Edge>
    requires i <= |d.edges|
  {
    if i == 0 then []
    else
      var rest := OutEdges(d, v, tree, i - 1);
      if d.edges[i - 1].fromNode == v && Selected(d, tree, i - 1)
      then rest + [Edge(d.edges[i - 1].toNode, i - 1)] else rest
  }

  function InEdges(d: FunctionDescription, v: nat, tree: bool, i: nat): seq<Edge>
    requires i <= |d.edges|
  {
    if i == 0 then []
    else
      var rest := InEdges(d, v, tree, i - 1);
      if d.edges[i - 1].toNode == v && Selected(d, tree, i - 1)
      then rest + [Edge(d.edges[i - 1].fromNode, i - 1)] else rest
  }

  // ---------- Sums ----------

  /** The sum of `f` over the edges listed in `es`, in order. */
  function SumOver(es: seq<Edge>, f: seq<int>): int
    requires InRange(es, |f|)
  {
    if es == [] then 0 else SumOver(es[..|es| - 1], f) + f[es[|es| - 1].id]
  }

  /** Total of `f` over the first `i` edges leaving `v`. */
  function OutFlow(d: FunctionDescription, f: seq<int>, v: nat, i: nat): int
    requires i <= |d.edges| == |f|
  {
    if i == 0 then 0
    else OutFlow(d, f, v, i - 1) + if d.edges[i - 1].fromNode == v then f[i - 1] else 0
  }

  /** Total of `f` over the first `i` edges entering `v`. */
  function InFlow(d: FunctionDescription, f: seq<int>, v: nat, i: nat): int
    requires i <= |d.edges| == |f|
  {
    if i == 0 then 0
    else InFlow(d, f, v, i - 1) + if d.edges[i - 1].toNode == v then f[i - 1] else 0
  }

  /** `es` lists, in increasing edge order, exactly the selected ones of the first `i` edges that leave `v`. */
  ghost predicate ListsOutEdges(d: FunctionDescription, es: seq<Edge>, v: nat, tree: bool, i: nat)
    requires i <= |d.edges|
  {
    && (forall k :: 0 <= k < |es| ==>
          && es[k].id < i && d.edges[es[k].id].fromNode == v
          && d.edges[es[k].id].toNode == es[k].node && Selected(d, tree, es[k].id))
    && (forall j, k :: 0 <= j < k < |es| ==> es[j].id < es[k].id)
    && (forall e :: 0 <= e < i && d.edges[e].fromNode == v && Selected(d, tree, e) ==>
          exists k :: 0 <= k < |es| && es[k].id == e)
  }

  ghost predicate ListsInEdges(d: FunctionDescription, es: seq<Edge>, v: nat, tree: bool, i: nat)
    requires i <= |d.edges|
  {
    && (forall k :: 0 <= k < |es| ==>
          && es[k].id < i && d.edges[es[k].id].toNode == v
          && d.edges[es[k].id].fromNode == es[k].node && Selected(d, tree, es[k].id))
    && (forall j, k :: 0 <= j < k < |es| ==> es[j].id < es[k].id)
    && (forall e :: 0 <= e < i && d.edges[e].toNode == v && Selected(d, tree, e) ==>
          exists k :: 0 <= k < |es| && es[k].id == e)
  }

  lemma ListsMoreOutEdges(d: FunctionDescription, es: seq<Edge>, v: nat, tree: bool, i: nat)
    requires 0 < i <= |d.edges| && ListsOutEdges(d, es, v, tree, i - 1)
    ensures d.edges[i - 1].fromNode == v && Selected(d, tree, i - 1) ==>
              ListsOutEdges(d, es + [Edge(d.edges[i - 1].toNode, i - 1)], v, tree, i)
    ensures !(d.edges[i - 1].fromNode == v && Selected(d, tree, i - 1)) ==> ListsOutEdges(d, es, v, tree, i)
  {
    if d.edges[i - 1].fromNode == v && Selected(d, tree, i - 1) {
      var es' := es + [Edge(d.edges[i - 1].toNode, i - 1)];
      forall e | 0 <= e < i && d.edges[e].fromNode == v && Selected(d, tree, e)
        ensures exists k :: 0 <= k < |es'| && es'[k].id == e
      {
        if e == i - 1 {
          assert es'[|es|].id == e;
        } else {
          var k :| 0 <= k < |es| && es[k].id == e;
          assert es'[k].id == e;
        }
      }
    }
  }

  lemma ListsMoreInEdges(d: FunctionDescription, es: seq<Edge>, v: nat, tree: bool, i: nat)
    requires 0 < i <= |d.edges| && ListsInEdges(d, es, v, tree, i - 1)
    ensures d.edges[i - 1].toNode == v && Selected(d, tree, i - 1) ==>
              ListsInEdges(d, es + [Edge(d.edges[i - 1].fromNode, i - 1)], v, tree, i)
    ensures !(d.edges[i - 1].toNode == v && Selected(d, tree, i - 1)) ==> ListsInEdges(d, es, v, tree, i)
  {
    if d.edges[i - 1].toNode == v && Selected(d, tree, i - 1) {
      var es' := es + [Edge(d.edges[i - 1].fromNode, i - 1)];
      forall e | 0 <= e < i && d.edges[e].toNode == v && Selected(d, tree, e)
        ensures exists k :: 0 <= k < |es'| && es'[k].id == e
      {
        if e == i - 1 {
          assert es'[|es|].id == e;
        } else {
          var k :| 0 <= k < |es| && es[k].id == e;
          assert es'[k].id == e;
        }
      }
    }
  }

  lemma {:induction false} OutEdgesAreListed(d: FunctionDescription, v: nat, tree: bool, i: nat)
    requires i <= |d.edges|
    ensures ListsOutEdges(d, OutEdges(d, v, tree, i), v, tree, i)
  {
    if i > 0 {
      OutEdgesAreListed(d, v, tree, i - 1);
      ListsMoreOutEdges(d, OutEdges(d, v, tree, i - 1), v, tree, i);
    }
  }

  lemma {:induction false} InEdgesAreListed(d: FunctionDescription, v: nat, tree: bool, i: nat)
    requires i <= |d.edges|
    ensures ListsInEdges(d, InEdges(d, v, tree, i), v, tree, i)
  {
    if i > 0 {
      InEdgesAreListed(d, v, tree, i - 1);
      ListsMoreInEdges(d, InEdges(d, v, tree, i - 1), v, tree, i);
    }
  }

  ghost predicate InRange(es: seq<Edge>, m: nat) { forall k :: 0 <= k < |es| ==> es[k].id < m }

  lemma SumOverAppend(es: seq<Edge>, e: Edge, f: seq<int>)
    requires InRange(es, |f|) && e.id < |f|
    ensures SumOver(es + [e], f) == SumOver(es, f) + f[e.id]
  {
    assert (es + [e])[..|es|] == es;
  }

  lemma {:induction false} SumOverOutEdges(d: FunctionDescription, f: seq<int>, v: nat, i: nat)
    requires i <= |d.edges| == |f|
    ensures InRange(OutEdges(d, v, false, i), |f|)
    ensures SumOver(OutEdges(d, v, false, i), f) == OutFlow(d, f, v, i)
  {
    if i > 0 {
      SumOverOutEdges(d, f, v, i - 1);
      SumOverAppend(OutEdges(d, v, false, i - 1), Edge(d.edges[i - 1].toNode, i - 1), f);
    }
  }

  lemma {:induction false} SumOverInEdges(d: FunctionDescription, f: seq<int>, v: nat, i: nat)
    requires i <= |d.edges| == |f|
    ensures InRange(InEdges(d, v, false, i), |f|)
    ensures SumOver(InEdges(d, v, false, i), f) == InFlow(d, f, v, i)
  {
    if i > 0 {
      SumOverInEdges(d, f, v, i - 1);
      SumOverAppend(InEdges(d, v, false, i - 1), Edge(d.edges[i - 1].fromNode, i - 1), f);
    }
  }

  /** A node is a root exactly when its set of uninstrumented in-edges is empty. */
  lemma RootHasNoTreeInEdge(d: FunctionDescription, v: nat)
    ensures Root(d, v) <==> InEdges(d, v, true, |d.edges|) == []
  {
    InEdgesAreListed(d, v, true, |d.edges|);
    if !Root(d, v) {
      var e :| TreeEdge(d, e) && d.edges[e].toNode == v;
      assert Selected(d, true, e);
    } else if InEdges(d, v, true, |d.edges|) != [] {
      var e := InEdges(d, v, true, |d.edges|)[0];
      assert TreeEdge(d, e.id);
    }
  }

  /** In a forest, a node that is not a root has exactly one uninstrumented in-edge. */
  lemma ForestHasOneParent(d: FunctionDescription, v: nat)
    requires Forest(d) && !Root(d, v)
    ensures |InEdges(d, v, true, |d.edges|)| == 1
    ensures var p := InEdges(d, v, true, |d.edges|)[0];
            TreeEdge(d, p.id) && d.edges[p.id] == EdgeDescription(p.node, v, NO_COUNTER)
  {
    InEdgesAreListed(d, v, true, |d.edges|);
    RootHasNoTreeInEdge(d, v);
    var es := InEdges(d, v, true, |d.edges|);
    if |es| > 1 {
      assert TreeEdge(d, es[0].id) && TreeEdge(d, es[1].id);
      assert false;
    }
  }

  // ---------- Node data looked up in the description ----------

  /** The counter of the last of the first `i` leaf records for `v`, or zero. */
  function LeafFrequency(d: FunctionDescription, counters: seq<nat>, v: nat, i: nat): nat
    requires i <= |d.leafNodes| && CountersExist(d, counters)
  {
    if i == 0 then 0
    else if d.leafNodes[i - 1].node == v then counters[d.leafNodes[i - 1].counter]
    else LeafFrequency(d, counters, v, i - 1)
  }

  function Leaf(d: FunctionDescription, counters: seq<nat>, v: nat): nat
    requires CountersExist(d, counters)
  {
    LeafFrequency(d, counters, v, |d.leafNodes|)
  }

  /** Record `k` is the last of the first `i` leaf records that is for its node. */
  ghost predicate LastLeaf(d: FunctionDescription, k: int, i: nat)
    requires i <= |d.leafNodes|
  {
    0 <= k < i && forall j :: k < j < i ==> d.leafNodes[j].node != d.leafNodes[k].node
  }

  /** By the first `i` leaf records, the count of `v` is `x`: the counter of the last record for it, and zero without one. */
  ghost predicate LeafIs(d: FunctionDescription, counters: seq<nat>, v: nat, x: nat, i: nat)
    requires i <= |d.leafNodes| && CountersExist(d, counters)
  {
    || (exists k :: LastLeaf(d, k, i) && d.leafNodes[k].node == v && x == counters[d.leafNodes[k].counter])
    || (x == 0 && forall k :: 0 <= k < i ==> d.leafNodes[k].node != v)
  }

  lemma {:induction false} LeafIsLastRecord(d: FunctionDescription, counters: seq<nat>, v: nat, i: nat)
    requires i <= |d.leafNodes| && CountersExist(d, counters)
    ensures LeafIs(d, counters, v, LeafFrequency(d, counters, v, i), i)
  {
    if i > 0 {
      LeafIsLastRecord(d, counters, v, i - 1);
      if d.leafNodes[i - 1].node == v {
        assert LastLeaf(d, i - 1, i);
      } else if k :| LastLeaf(d, k, i - 1) && d.leafNodes[k].node == v {
        assert LastLeaf(d, k, i);
      }
    }
  }

  /** The address of the last of the first `i` entry records for `v`, or zero. */
  function EntryAddress(d: FunctionDescription, v: nat, i: nat): nat
    requires i <= |d.entryNodes|
  {
    if i == 0 then 0
    else if d.entryNodes[i - 1].node == v then d.entryNodes[i - 1].address
    else EntryAddress(d, v, i - 1)
  }

  /** Record `k` is the last of the first `i` entry records that is for its node. */
  ghost predicate LastEntry(d: FunctionDescription, k: int, i: nat)
    requires i <= |d.entryNodes|
  {
    0 <= k < i && forall j :: k < j < i ==> d.entryNodes[j].node != d.entryNodes[k].node
  }

  /** By the first `i` entry records, the address of `v` is `x`: that of the last record for it, and zero without one. */
  ghost predicate EntryIs(d: FunctionDescription, v: nat, x: nat, i: nat)
    requires i <= |d.entryNodes|
  {
    || (exists k :: LastEntry(d, k, i) && d.entryNodes[k].node == v && x == d.entryNodes[k].address)
    || (x == 0 && forall k :: 0 <= k < i ==> d.entryNodes[k].node != v)
  }

  lemma {:induction false} EntryIsLastRecord(d: FunctionDescription, v: nat, i: nat)
    requires i <= |d.entryNodes|
    ensures EntryIs(d, v, EntryAddress(d, v, i), i)
  {
    if i > 0 {
      EntryIsLastRecord(d, v, i - 1);
      if d.entryNodes[i - 1].node == v {
        assert LastEntry(d, i - 1, i);
      } else if k :| LastEntry(d, k, i - 1) && d.entryNodes[k].node == v {
        assert LastEntry(d, k, i);
      }
    }
  }

  /** The largest private call counter among the first `i` calls made in `v`. */
  function MaxCallCounter(d: FunctionDescription, counters: seq<nat>, v: nat, i: nat): nat
    requires i <= |d.calls| && CountersExist(d, counters)
  {
    if i == 0 then 0
    else
      var rest := MaxCallCounter(d, counters, v, i - 1);
      var c := d.calls[i - 1];
      if c.fromNode == v && c.counter != NO_COUNTER && counters[c.counter] > rest then counters[c.counter] else rest
  }

  /** Call `c` is made in `v` and has a counter of its own. */
  predicate CountedCall(d: FunctionDescription, c: int, v: nat) {
    0 <= c < |d.calls| && d.calls[c].fromNode == v && d.calls[c].counter != NO_COUNTER
  }

  /** `x` is the largest counter of such a call; zero without one. */
  ghost predicate LargestCall(d: FunctionDescription, counters: seq<nat>, v: nat, x: nat, i: nat)
    requires i <= |d.calls| && CountersExist(d, counters)
  {
    && (forall c :: c < i && CountedCall(d, c, v) ==> counters[d.calls[c].counter] <= x)
    && (x == 0 || exists c :: c < i && CountedCall(d, c, v) && counters[d.calls[c].counter] == x)
  }

  lemma {:induction false} MaxCallCounterIsLargest(d: FunctionDescription, counters: seq<nat>, v: nat, i: nat)
    requires i <= |d.calls| && CountersExist(d, counters)
    ensures LargestCall(d, counters, v, MaxCallCounter(d, counters, v, i), i)
  {
    if i > 0 {
      MaxCallCounterIsLargest(d, counters, v, i - 1);
      if CountedCall(d, i - 1, v) { assert CountedCall(d, i - 1, v); }
    }
  }

  // ---------- What the profile writer computes ----------

  /** Frequency of `v` before calls are looked at: its leaf counter, or else the flow out of it. */
  ghost function BlockFrequency(d: FunctionDescription, n: nat, counters: seq<nat>, h: seq<nat>, v: nat): int
    requires Heights(d, n, h) && CountersExist(d, counters) && v < n
    decreases h[v], 2, 0
  {
    var leaf := ToInt64(Leaf(d, counters, v));
    if leaf != 0 then leaf else ToInt64(ResolvedOutFlow(d, n, counters, h, v, |d.edges|))
  }

  /** Frequency of `v`: never negative, and at least every private call counter in it. */
  ghost function NodeFrequency(d: FunctionDescription, n: nat, counters: seq<nat>, h: seq<nat>, v: nat): int
    requires Heights(d, n, h) && CountersExist(d, counters) && v < n
    decreases h[v], 3, 0
  {
    var block := ClampToZero(BlockFrequency(d, n, counters, h, v));
    var calls := MaxCallCounter(d, counters, v, |d.calls|);
    ToInt64(if calls > block then calls else block)
  }

  ghost function ResolvedOutFlow(d: FunctionDescription, n: nat, counters: seq<nat>, h: seq<nat>, v: nat, i: nat): int
    requires Heights(d, n, h) && CountersExist(d, counters) && v < n && i <= |d.edges|
    decreases h[v], 1, i
  {
    if i == 0 then 0
    else
      ResolvedOutFlow(d, n, counters, h, v, i - 1) +
      if d.edges[i - 1].fromNode != v then 0
      else if d.edges[i - 1].counter != NO_COUNTER then counters[d.edges[i - 1].counter]
      else assert TreeEdge(d, i - 1); TreeEdgeFrequency(d, n, counters, h, i - 1)
  }

  /** Total of the instrumented edges among the first `i` that enter `v`. */
  function CountedInFlow(d: FunctionDescription, counters: seq<nat>, v: nat, i: nat): int
    requires CountersExist(d, counters) && i <= |d.edges|
  {
    if i == 0 then 0
    else CountedInFlow(d, counters, v, i - 1) +
         if d.edges[i - 1].toNode == v && d.edges[i - 1].counter != NO_COUNTER
         then counters[d.edges[i - 1].counter] else 0
  }

  /** What is left of the frequency of `v` for its one uninstrumented in-edge; negative on a wrong flow. */
  ghost function ParentFrequency(d: FunctionDescription, n: nat, counters: seq<nat>, h: seq<nat>, v: nat): int
    requires Heights(d, n, h) && CountersExist(d, counters) && v < n
    decreases h[v], 4, 0
  {
    ToInt64(NodeFrequency(d, n, counters, h, v) - CountedInFlow(d, counters, v, |d.edges|))
  }

  ghost function TreeEdgeFrequency(d: FunctionDescription, n: nat, counters: seq<nat>, h: seq<nat>, e: nat): nat
    requires Heights(d, n, h) && CountersExist(d, counters) && TreeEdge(d, e)
    decreases h[d.edges[e].toNode], 5, 0
  {
    ClampToZero(ParentFrequency(d, n, counters, h, d.edges[e].toNode))
  }

  ghost function EdgeFrequency(d: FunctionDescription, n: nat, counters: seq<nat>, h: seq<nat>, e: nat): nat
    requires Heights(d, n, h) && CountersExist(d, counters) && e < |d.edges|
  {
    if d.edges[e].counter != NO_COUNTER then counters[d.edges[e].counter]
    else TreeEdgeFrequency(d, n, counters, h, e)
  }

  ghost function CallFrequency(d: FunctionDescription, n: nat, counters: seq<nat>, h: seq<nat>, c: nat): nat
    requires Heights(d, n, h) && CountersExist(d, counters) && c < |d.calls|
  {
    if d.calls[c].counter != NO_COUNTER then counters[d.calls[c].counter]
    else ClampToZero(BlockFrequency(d, n, counters, h, d.calls[c].fromNode))
  }

  // ---------- Exactness ----------

  /** The counters were taken from an execution with these edge frequencies; no total reaches 2^63. */
  ghost predicate CountersOf(d: FunctionDescription, n: nat, counters: seq<nat>, flow: seq<nat>) {
    && CountersExist(d, counters) && Covers(d, n) && |flow| == |d.edges|
    && (forall e :: 0 <= e < |d.edges| && d.edges[e].counter != NO_COUNTER ==> counters[d.edges[e].counter] == flow[e])
    && (forall v :: 0 <= v < n ==> ObservedFrequency(d, counters, flow, v) < TWO63)
    && (forall v :: 0 <= v < n ==> InFlow(d, flow, v, |d.edges|) < TWO63)
  }

  /** How often `v` appears to run before its calls are looked at: by the last leaf record for it, or else its real out-flow. */
  ghost function ObservedBlock(d: FunctionDescription, counters: seq<nat>, flow: seq<nat>, v: nat): int
    requires CountersExist(d, counters) && |flow| == |d.edges|
  {
    LeafIsLastRecord(d, counters, v, |d.leafNodes|);
    var leaf: nat :| LeafIs(d, counters, v, leaf, |d.leafNodes|);
    if leaf != 0 then leaf else OutFlow(d, flow, v, |d.edges|)
  }

  /** And by the largest of its private call counters. */
  ghost function ObservedFrequency(d: FunctionDescription, counters: seq<nat>, flow: seq<nat>, v: nat): int
    requires CountersExist(d, counters) && |flow| == |d.edges|
  {
    MaxCallCounterIsLargest(d, counters, v, |d.calls|);
    var calls: nat :| LargestCall(d, counters, v, calls, |d.calls|);
    var block := ObservedBlock(d, counters, flow, v);
    if calls > block then calls else block
  }

  /** What the records say is what the lookups find. */
  lemma ObservedIsLookedUp(d: FunctionDescription, counters: seq<nat>, flow: seq<nat>, v: nat)
    requires CountersExist(d, counters) && |flow| == |d.edges|
    ensures var leaf, calls := Leaf(d, counters, v), MaxCallCounter(d, counters, v, |d.calls|);
            var block := if leaf != 0 then leaf else OutFlow(d, flow, v, |d.edges|);
            && ObservedBlock(d, counters, flow, v) == block
            && ObservedFrequency(d, counters, flow, v) == if calls > block then calls else block
  {
    LeafIsLastRecord(d, counters, v, |d.leafNodes|);
    MaxCallCounterIsLargest(d, counters, v, |d.calls|);
  }

  /** What appears to run in `v` is what entered it, or else is less and nothing entered along edge `e`. */
  ghost predicate ConservedAlong(d: FunctionDescription, counters: seq<nat>, flow: seq<nat>, e: nat)
    requires CountersExist(d, counters) && |flow| == |d.edges| && e < |d.edges|
  {
    var v := d.edges[e].toNode;
    var observed := ObservedFrequency(d, counters, flow, v);
    var entered := InFlow(d, flow, v, |d.edges|);
    observed == entered || (observed < entered && flow[e] == 0)
  }

  /** The instrumented in-flow of a node leaves exactly the flow of its one tree edge. */
  lemma {:induction false} CountedInFlowMissesParent(d: FunctionDescription, n: nat, counters: seq<nat>, flow: seq<nat>, e: nat, i: nat)
    requires CountersOf(d, n, counters, flow) && Forest(d) && TreeEdge(d, e) && i <= |d.edges|
    ensures var v := d.edges[e].toNode;
            CountedInFlow(d, counters, v, i) == InFlow(d, flow, v, i) - if e < i then flow[e] else 0
  {
    if i > 0 {
      CountedInFlowMissesParent(d, n, counters, flow, e, i - 1);
      if d.edges[i - 1].toNode == d.edges[e].toNode && d.edges[i - 1].counter == NO_COUNTER {
        assert TreeEdge(d, i - 1);
        assert i - 1 == e;
      }
    }
  }

  lemma {:induction false} FlowsAreNonNegative(d: FunctionDescription, flow: seq<nat>, v: nat, i: nat)
    requires i <= |d.edges| == |flow|
    ensures OutFlow(d, flow, v, i) >= 0
    ensures forall e :: 0 <= e < i && d.edges[e].toNode == v ==> InFlow(d, flow, v, i) >= flow[e]
    ensures InFlow(d, flow, v, i) >= 0
  {
    if i > 0 { FlowsAreNonNegative(d, flow, v, i - 1); }
  }

  lemma {:induction false} OutFlowResolved(d: FunctionDescription, n: nat, counters: seq<nat>, h: seq<nat>, flow: seq<nat>, v: nat, i: nat)
    requires CountersOf(d, n, counters, flow) && Heights(d, n, h) && v < n && i <= |d.edges|
    requires forall e :: TreeEdge(d, e) && d.edges[e].fromNode == v ==> TreeEdgeFrequency(d, n, counters, h, e) == flow[e]
    ensures ResolvedOutFlow(d, n, counters, h, v, i) == OutFlow(d, flow, v, i)
  {
    if i > 0 {
      OutFlowResolved(d, n, counters, h, flow, v, i - 1);
      if d.edges[i - 1].fromNode == v && d.edges[i - 1].counter == NO_COUNTER {
        assert TreeEdge(d, i - 1);
      }
    }
  }

  /** A node whose tree edges out are resolved to the real flow gets its observed frequency. */
  lemma NodeFollowsOutEdges(d: FunctionDescription, n: nat, counters: seq<nat>, h: seq<nat>, flow: seq<nat>, v: nat)
    requires CountersOf(d, n, counters, flow) && Heights(d, n, h) && v < n
    requires forall e :: TreeEdge(d, e) && d.edges[e].fromNode == v ==> TreeEdgeFrequency(d, n, counters, h, e) == flow[e]
    ensures NodeFrequency(d, n, counters, h, v) == ObservedFrequency(d, counters, flow, v)
    ensures BlockFrequency(d, n, counters, h, v) == ObservedBlock(d, counters, flow, v)
  {
    OutFlowResolved(d, n, counters, h, flow, v, |d.edges|);
    FlowsAreNonNegative(d, flow, v, |d.edges|);
    ObservedIsLookedUp(d, counters, flow, v);
  }

  /** With the edges below resolved, an edge is left exactly what was observed less what entered elsewhere. */
  lemma ParentEdgeFollowsNode(d: FunctionDescription, n: nat, counters: seq<nat>, h: seq<nat>, flow: seq<nat>, e: nat)
    requires CountersOf(d, n, counters, flow) && Heights(d, n, h) && Forest(d) && TreeEdge(d, e)
    requires forall e' :: TreeEdge(d, e') && d.edges[e'].fromNode == d.edges[e].toNode ==>
               TreeEdgeFrequency(d, n, counters, h, e') == flow[e']
    ensures var v := d.edges[e].toNode;
            ParentFrequency(d, n, counters, h, v) ==
              ObservedFrequency(d, counters, flow, v) - InFlow(d, flow, v, |d.edges|) + flow[e]
    ensures TreeEdgeFrequency(d, n, counters, h, e) == flow[e] <==> ConservedAlong(d, counters, flow, e)
  {
    var v := d.edges[e].toNode;
    NodeFollowsOutEdges(d, n, counters, h, flow, v);
    CountedInFlowMissesParent(d, n, counters, flow, e, |d.edges|);
    FlowsAreNonNegative(d, flow, v, |d.edges|);
  }

  lemma {:induction false} TreeEdgeIsExact(d: FunctionDescription, n: nat, counters: seq<nat>, h: seq<nat>, flow: seq<nat>, e: nat)
    requires CountersOf(d, n, counters, flow) && Heights(d, n, h) && Forest(d) && TreeEdge(d, e)
    requires forall e' :: TreeEdge(d, e') ==> ConservedAlong(d, counters, flow, e')
    ensures TreeEdgeFrequency(d, n, counters, h, e) == flow[e]
    decreases h[d.edges[e].toNode]
  {
    forall e' | TreeEdge(d, e') && d.edges[e'].fromNode == d.edges[e].toNode
      ensures TreeEdgeFrequency(d, n, counters, h, e') == flow[e']
    {
      TreeEdgeIsExact(d, n, counters, h, flow, e');
    }
    ParentEdgeFollowsNode(d, n, counters, h, flow, e);
  }

  /**
   For any execution at all, the reconstruction returns its frequency on every
   edge if and only if the execution conserves flow at every node that has a
   parent in the forest (up to an excess hidden by the clamp at zero).
   */
  lemma ExactIffConserved(d: FunctionDescription, n: nat, counters: seq<nat>, h: seq<nat>, flow: seq<nat>)
    requires CountersOf(d, n, counters, flow) && Heights(d, n, h) && Forest(d)
    ensures (forall e :: 0 <= e < |d.edges| ==> EdgeFrequency(d, n, counters, h, e) == flow[e]) <==>
            (forall e :: TreeEdge(d, e) ==> ConservedAlong(d, counters, flow, e))
  {
    if forall e :: TreeEdge(d, e) ==> ConservedAlong(d, counters, flow, e) {
      forall e | 0 <= e < |d.edges| ensures EdgeFrequency(d, n, counters, h, e) == flow[e] {
        if d.edges[e].counter == NO_COUNTER { TreeEdgeIsExact(d, n, counters, h, flow, e); }
      }
    }
    if forall e :: 0 <= e < |d.edges| ==> EdgeFrequency(d, n, counters, h, e) == flow[e] {
      forall e | TreeEdge(d, e) ensures ConservedAlong(d, counters, flow, e) {
        assert EdgeFrequency(d, n, counters, h, e) == flow[e];
        ParentEdgeFollowsNode(d, n, counters, h, flow, e);
      }
    }
  }

  /** Then the nodes have what was observed, and calls without a counter what was observed before bumping it. */
  lemma NodesAndCallsAreExact(d: FunctionDescription, n: nat, counters: seq<nat>, h: seq<nat>, flow: seq<nat>)
    requires CountersOf(d, n, counters, flow) && Heights(d, n, h) && Forest(d)
    requires forall e :: TreeEdge(d, e) ==> ConservedAlong(d, counters, flow, e)
    ensures forall v :: 0 <= v < n ==> NodeFrequency(d, n, counters, h, v) == ObservedFrequency(d, counters, flow, v)
    ensures forall c :: 0 <= c < |d.calls| ==>
              CallFrequency(d, n, counters, h, c) ==
                if d.calls[c].counter != NO_COUNTER then counters[d.calls[c].counter]
                else ObservedBlock(d, counters, flow, d.calls[c].fromNode)
  {
    forall e | TreeEdge(d, e) ensures TreeEdgeFrequency(d, n, counters, h, e) == flow[e] {
      TreeEdgeIsExact(d, n, counters, h, flow, e);
    }
    forall v | 0 <= v < n
      ensures NodeFrequency(d, n, counters, h, v) == ObservedFrequency(d, counters, flow, v)
      ensures BlockFrequency(d, n, counters, h, v) == ObservedBlock(d, counters, flow, v) >= 0
    {
      NodeFollowsOutEdges(d, n, counters, h, flow, v);
      FlowsAreNonNegative(d, flow, v, |d.edges|);
      ObservedIsLookedUp(d, counters, flow, v);
    }
  }

  /**
   `freq` gives the node frequencies of that execution: the counter of a
   node's last leaf record is its frequency, unless it is zero; frequencies are
   conserved on the way out of every other node and on the way into every node
   with a parent, and no call in a node ran more often than the node.
   */
  ghost predicate FlowOf(d: FunctionDescription, n: nat, counters: seq<nat>, flow: seq<nat>, freq: seq<nat>) {
    && CountersExist(d, counters) && Covers(d, n) && |flow| == |d.edges| && |freq| == n
    && (forall e :: 0 <= e < |d.edges| && d.edges[e].counter != NO_COUNTER ==> counters[d.edges[e].counter] == flow[e])
    && (forall k :: LastLeaf(d, k, |d.leafNodes|) && counters[d.leafNodes[k].counter] != 0 ==>
          freq[d.leafNodes[k].node] == counters[d.leafNodes[k].counter])
    && (forall v :: 0 <= v < n && (forall k :: LastLeaf(d, k, |d.leafNodes|) && d.leafNodes[k].node == v ==> counters[d.leafNodes[k].counter] == 0) ==>
          freq[v] == OutFlow(d, flow, v, |d.edges|))
    && (forall v :: 0 <= v < n && !Root(d, v) ==> freq[v] == InFlow(d, flow, v, |d.edges|))
    && (forall c :: 0 <= c < |d.calls| && d.calls[c].counter != NO_COUNTER ==>
          counters[d.calls[c].counter] <= freq[d.calls[c].fromNode])
    && (forall v :: 0 <= v < n ==> freq[v] < TWO63 && InFlow(d, flow, v, |d.edges|) < TWO63)
  }

  lemma {:induction false} MaxCallCounterBounded(d: FunctionDescription, n: nat, counters: seq<nat>, flow: seq<nat>, freq: seq<nat>, v: nat, i: nat)
    requires FlowOf(d, n, counters, flow, freq) && v < n && i <= |d.calls|
    ensures MaxCallCounter(d, counters, v, i) <= freq[v]
  {
    if i > 0 { MaxCallCounterBounded(d, n, counters, flow, freq, v, i - 1); }
  }

  lemma LeafOfFlow(d: FunctionDescription, n: nat, counters: seq<nat>, flow: seq<nat>, freq: seq<nat>, v: nat)
    requires FlowOf(d, n, counters, flow, freq) && v < n
    ensures var leaf := Leaf(d, counters, v); freq[v] == if leaf != 0 then leaf else OutFlow(d, flow, v, |d.edges|)
  {
    LeafIsLastRecord(d, counters, v, |d.leafNodes|);
  }

  lemma FlowIsConserved(d: FunctionDescription, n: nat, counters: seq<nat>, flow: seq<nat>, freq: seq<nat>)
    requires FlowOf(d, n, counters, flow, freq)
    ensures CountersOf(d, n, counters, flow)
    ensures forall v :: 0 <= v < n ==> ObservedBlock(d, counters, flow, v) == ObservedFrequency(d, counters, flow, v) == freq[v]
    ensures forall e :: TreeEdge(d, e) ==> ConservedAlong(d, counters, flow, e)
  {
    forall v | 0 <= v < n ensures ObservedBlock(d, counters, flow, v) == ObservedFrequency(d, counters, flow, v) == freq[v] {
      MaxCallCounterBounded(d, n, counters, flow, freq, v, |d.calls|);
      LeafOfFlow(d, n, counters, flow, freq, v);
      ObservedIsLookedUp(d, counters, flow, v);
    }
    forall e | TreeEdge(d, e) ensures ConservedAlong(d, counters, flow, e) {
      assert !Root(d, d.edges[e].toNode);
    }
  }

  /** On a real flow every edge and node frequency is recovered, and no clamp to zero fires. */
  lemma ReconstructionIsExact(d: FunctionDescription, n: nat, counters: seq<nat>, h: seq<nat>, flow: seq<nat>, freq: seq<nat>)
    requires FlowOf(d, n, counters, flow, freq) && Heights(d, n, h) && Forest(d)
    ensures forall e :: 0 <= e < |d.edges| ==> EdgeFrequency(d, n, counters, h, e) == flow[e]
    ensures forall v :: 0 <= v < n ==>
              BlockFrequency(d, n, counters, h, v) == NodeFrequency(d, n, counters, h, v) == freq[v] >= 0
    ensures forall e :: TreeEdge(d, e) ==> ParentFrequency(d, n, counters, h, d.edges[e].toNode) == flow[e] >= 0
    ensures forall c :: 0 <= c < |d.calls| && d.calls[c].counter == NO_COUNTER ==>
              CallFrequency(d, n, counters, h, c) == freq[d.calls[c].fromNode]
  {
    FlowIsConserved(d, n, counters, flow, freq);
    ExactIffConserved(d, n, counters, h, flow);
    forall e | TreeEdge(d, e) ensures TreeEdgeFrequency(d, n, counters, h, e) == flow[e] {
      assert EdgeFrequency(d, n, counters, h, e) == flow[e];
    }
    forall v | 0 <= v < n
      ensures BlockFrequency(d, n, counters, h, v) == NodeFrequency(d, n, counters, h, v) == freq[v]
    {
      NodeFollowsOutEdges(d, n, counters, h, flow, v);
    }
    forall e | TreeEdge(d, e) ensures ParentFrequency(d, n, counters, h, d.edges[e].toNode) == flow[e] {
      ParentEdgeFollowsNode(d, n, counters, h, flow, e);
      assert !Root(d, d.edges[e].toNode);
    }
  }

  /** The counters outside a spanning forest determine the whole flow. */
  lemma CountersDetermineFlow(d: FunctionDescription, n: nat, counters: seq<nat>, h: seq<nat>,
                              flow: seq<nat>, freq: seq<nat>, flow': seq<nat>, freq': seq<nat>)
    requires Heights(d, n, h) && Forest(d)
    requires FlowOf(d, n, counters, flow, freq) && FlowOf(d, n, counters, flow', freq')
    ensures flow == flow' && freq == freq'
  {
    ReconstructionIsExact(d, n, counters, h, flow, freq);
    ReconstructionIsExact(d, n, counters, h, flow', freq');
    assert forall e :: 0 <= e < |d.edges| ==> flow[e] == EdgeFrequency(d, n, counters, h, e) == flow'[e];
    assert forall v :: 0 <= v < n ==> freq[v] == NodeFrequency(d, n, counters, h, v) == freq'[v];
  }
}
