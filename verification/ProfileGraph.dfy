/**
 The in-memory CFG of one instrumented function, and the loops that rebuild its
 edge and call frequencies from the counters.
 */
module ProfileGraph {
  import opened FlowSpec
  import opened FlowWalk
  import opened FlowValues
  import opened Words
  import opened Sequences

  /** A regular node or a spanning-tree node. */
  datatype Node = Node(inEdges: seq<Edge>, outEdges: seq<Edge>)

  /** The call flow table, as the finite map its hash table implements: two 64-bit numbers per address. */
  class CallFlowTable {
    var calls: map<nat, nat>
    var vals: map<nat, nat>

    ghost predicate Valid()
      reads this
    {
      Fits64(calls)
    }

    constructor ()
      ensures Valid() && calls == map[] && vals == map[]
    {
      calls, vals := map[], map[];
    }

    method AddCalls(t: nat, x: nat)
      requires Valid()
      modifies this`calls
      ensures Valid()
      ensures forall t' :: Get(calls, t') == if t' == t then Wrap64(Get(old(calls), t) + x) else Get(old(calls), t')
    {
      calls := calls[t := Wrap64(Get(calls, t) + x)];
    }

    method SetVal(t: nat, x: nat)
      modifies this`vals
      ensures vals == old(vals)[t := x]
    {
      vals := vals[t := x];
    }
  }

  /** For every node, the numbers of the calls made in it. */
  class NodeToCallsMap {
    const d: FunctionDescription
    var entries: array<seq<nat>>

    ghost predicate Valid(n: nat)
      reads this, entries
    {
      entries.Length == n && forall v :: 0 <= v < n ==> entries[v] == CallsIn(d, v, |d.calls|)
    }

    constructor (d: FunctionDescription, numNodes: nat)
      requires Covers(d, numNodes)
      ensures this.d == d && Valid(numNodes) && fresh(entries)
    {
      this.d := d;
      entries := new seq<nat>[numNodes](_ => []);
      new;
      for i := 0 to |d.calls|
        invariant this.d == d && fresh(entries) && entries.Length == numNodes
        invariant forall v :: 0 <= v < numNodes ==> entries[v] == CallsIn(d, v, i)
      {
        var v := d.calls[i].fromNode;
        entries[v] := entries[v] + [i];
      }
    }

    /**
     Gives every call in `v` its frequency, adds it to its target's total, and
     returns the largest private counter seen.
     */
    method VisitAllCallsIn(v: nat, freq: nat, calls: array<nat>, counters: seq<nat>, ctx: CallFlowTable)
      returns (maxValue: nat)
      requires Valid(entries.Length) && v < entries.Length
      requires CountersExist(d, counters) && calls.Length == |d.calls|
      requires forall c :: 0 <= c < |d.calls| && d.calls[c].fromNode == v ==> calls[c] == 0
      requires ctx.Valid()
      modifies calls, ctx`calls
      ensures ctx.Valid()
      ensures maxValue == MaxCallCounter(d, counters, v, |d.calls|) && LargestCall(d, counters, v, maxValue, |d.calls|)
      ensures SetsCallsIn(d, counters, old(calls[..]), calls[..], v, freq)
      ensures TotalsFollow(d, old(ctx.calls), ctx.calls, old(calls[..]), calls[..])
    {
      CallsAreListedOnce(d, v);
      MaxOverCalls(d, counters, v, |d.calls|);
      MaxCallCounterIsLargest(d, counters, v, |d.calls|);
      AfterCallsIn(d, counters, calls[..], v, freq);
      maxValue := VisitCalls(entries[v], freq, calls, counters, ctx);
    }

    /** The loop of `VisitAllCallsIn`, over the calls of one node. */
    method VisitCalls(entry: seq<nat>, freq: nat, calls: array<nat>, counters: seq<nat>, ctx: CallFlowTable)
      returns (maxValue: nat)
      requires CountersExist(d, counters) && calls.Length == |d.calls|
      requires forall k :: 0 <= k < |entry| ==> entry[k] < |d.calls| && calls[entry[k]] == 0 && entry[k] !in entry[..k]
      requires ctx.Valid()
      modifies calls, ctx`calls
      ensures ctx.Valid()
      ensures maxValue == MaxOver(d, counters, entry)
      ensures calls[..] == AfterCalls(d, counters, old(calls[..]), entry, freq)
      ensures TotalsFollow(d, old(ctx.calls), ctx.calls, old(calls[..]), calls[..])
    {
      maxValue := 0;
      for i := 0 to |entry|
        invariant maxValue == MaxOver(d, counters, entry[..i])
        invariant calls[..] == AfterCalls(d, counters, old(calls[..]), entry[..i], freq)
        invariant ctx.Valid()
        invariant TotalsFollow(d, old(ctx.calls), ctx.calls, old(calls[..]), calls[..])
      {
        var callID := entry[i];
        assert entry[..i + 1][..i] == entry[..i];
        AfterCallsAt(d, counters, old(calls[..]), entry[..i], freq, callID);
        assert calls[..][callID] == 0;
        ghost var before, totals := calls[..], ctx.calls;
        SetCall(callID, freq, calls, counters, ctx);
        if d.calls[callID].counter != NO_COUNTER {
          var counterVal := calls[callID];
          maxValue := if counterVal > maxValue then counterVal else maxValue;
        }
        TotalsFollowOn(d, old(ctx.calls), totals, ctx.calls, old(calls[..]), before, calls[..]);
      }
      assert entry[..|entry|] == entry;
    }

    /** Sets one call that has not been set before, and adds it to its target's total. */
    method SetCall(callID: nat, freq: nat, calls: array<nat>, counters: seq<nat>, ctx: CallFlowTable)
      requires CountersExist(d, counters) && calls.Length == |d.calls| && callID < |d.calls|
      requires calls[callID] == 0 && ctx.Valid()
      modifies calls, ctx`calls
      ensures ctx.Valid()
      ensures calls[..] == old(calls[..])[callID := CallValue(d, counters, freq, callID)]
      ensures TotalsFollow(d, old(ctx.calls), ctx.calls, old(calls[..]), calls[..])
    {
      if d.calls[callID].counter == NO_COUNTER {
        calls[callID] := freq;
      } else {
        calls[callID] := counters[d.calls[callID].counter];
      }
      if calls[callID] > 0 {
        ctx.AddCalls(d.calls[callID].target, calls[callID]);
      }
      var k := |d.calls|;
      forall t
        ensures Get(ctx.calls, t) == Wrap64(Get(old(ctx.calls), t) +
          (TargetTally(d, calls[..], t, k) - TargetTally(d, old(calls[..]), t, k)))
      {
        TallyUpdate(d, old(calls[..]), callID, calls[callID], t, k);
      }
    }
  }

  /** The CFG of the function described by `d`, with its spanning forest kept apart. */
  class Graph {
    const d: FunctionDescription
    var numNodes: nat
    var cfgNodes: array<Node>
    var spanningTreeNodes: array<Node>
    var edgeFreqs: array?<nat>
    var callFreqs: array?<nat>

    /** Both node arrays hold the edges of the description, in order. */
    ghost predicate Built()
      reads this, cfgNodes, spanningTreeNodes
    {
      && Covers(d, numNodes)
      && cfgNodes.Length == spanningTreeNodes.Length == numNodes
      && NodesHold(d, cfgNodes[..], false, |d.edges|)
      && NodesHold(d, spanningTreeNodes[..], true, |d.edges|)
    }

    /** Sizes the graph and fills both node arrays; no frequencies are computed yet. */
    constructor (d: FunctionDescription, counters: seq<nat>)
      requires CountersExist(d, counters)
      ensures Built() && this.d == d && edgeFreqs == null && callFreqs == null
      ensures fresh(cfgNodes) && fresh(spanningTreeNodes)
      ensures numNodes > 0 ==> !Covers(d, numNodes - 1)
    {
      this.d := d;
      var n := CountNodes(d, counters);
      numNodes := n;
      edgeFreqs, callFreqs := null, null;
      var cfg := new Node[n](_ => Node([], []));
      var tree := new Node[n](_ => Node([], []));
      for i := 0 to |d.edges|
        invariant NodesHold(d, cfg[..], false, i) && NodesHold(d, tree[..], true, i)
      {
        AddEdge(d, i, cfg, false);
        if d.edges[i].counter == NO_COUNTER {
          AddEdge(d, i, tree, true);
        }
      }
      cfgNodes, spanningTreeNodes := cfg, tree;
    }

    /** One more than the largest node number in the description, or zero. */
    static method CountNodes(d: FunctionDescription, counters: seq<nat>) returns (n: nat)
      requires CountersExist(d, counters)
      ensures Covers(d, n) && (n > 0 ==> !Covers(d, n - 1))
    {
      var maxNodes: int := -1;
      for i := 0 to |d.edges|
        invariant -1 <= maxNodes < 0x8000_0000
        invariant forall e :: 0 <= e < i ==> d.edges[e].fromNode <= maxNodes && d.edges[e].toNode <= maxNodes
        invariant maxNodes >= 0 ==> !Covers(d, maxNodes)
      {
        if d.edges[i].fromNode > maxNodes { maxNodes := d.edges[i].fromNode; }
        if d.edges[i].toNode > maxNodes { maxNodes := d.edges[i].toNode; }
      }
      for i := 0 to |d.leafNodes|
        invariant -1 <= maxNodes < 0x8000_0000
        invariant forall e :: 0 <= e < |d.edges| ==> d.edges[e].fromNode <= maxNodes && d.edges[e].toNode <= maxNodes
        invariant forall k :: 0 <= k < i ==> d.leafNodes[k].node <= maxNodes
        invariant maxNodes >= 0 ==> !Covers(d, maxNodes)
      {
        if d.leafNodes[i].node > maxNodes { maxNodes := d.leafNodes[i].node; }
      }
      for i := 0 to |d.calls|
        invariant -1 <= maxNodes < 0x8000_0000
        invariant forall e :: 0 <= e < |d.edges| ==> d.edges[e].fromNode <= maxNodes && d.edges[e].toNode <= maxNodes
        invariant forall k :: 0 <= k < |d.leafNodes| ==> d.leafNodes[k].node <= maxNodes
        invariant forall c :: 0 <= c < i ==> d.calls[c].fromNode <= maxNodes
        invariant maxNodes >= 0 ==> !Covers(d, maxNodes)
      {
        if d.calls[i].fromNode > maxNodes { maxNodes := d.calls[i].fromNode; }
      }
      n := maxNodes + 1;
    }

    /** Appends edge `i` to the out-edges of its source and the in-edges of its target. */
    static method AddEdge(d: FunctionDescription, i: nat, nodes: array<Node>, tree: bool)
      requires i < |d.edges| && Covers(d, nodes.Length) && Selected(d, tree, i)
      requires NodesHold(d, nodes[..], tree, i)
      modifies nodes
      ensures NodesHold(d, nodes[..], tree, i + 1)
    {
      var src, dst := d.edges[i].fromNode, d.edges[i].toNode;
      nodes[src] := nodes[src].(outEdges := nodes[src].outEdges + [Edge(dst, i)]);
      nodes[dst] := nodes[dst].(inEdges := nodes[dst].inEdges + [Edge(src, i)]);
    }

    /** Sums edge frequencies into a signed 64-bit accumulator that starts at zero. */
    static method AddUp(es: seq<Edge>, freqs: array<nat>) returns (sum: int)
      requires InRange(es, freqs.Length)
      ensures sum == ToInt64(SumOver(es, freqs[..]))
    {
      sum := 0;
      for i := 0 to |es|
        invariant sum == ToInt64(SumOver(es[..i], freqs[..]))
      {
        assert es[..i + 1][..i] == es[..i];
        ToInt64Accumulates(SumOver(es[..i], freqs[..]), freqs[es[i].id]);
        sum := ToInt64(sum + freqs[es[i].id]);
      }
      assert es[..|es|] == es;
    }

    /** Takes edge frequencies away from `start`, in signed 64-bit arithmetic. */
    static method TakeAway(start: int, es: seq<Edge>, freqs: array<nat>) returns (left: int)
      requires InRange(es, freqs.Length) && -TWO63 <= start < TWO63
      ensures left == ToInt64(start - SumOver(es, freqs[..]))
    {
      left := start;
      for i := 0 to |es|
        invariant left == ToInt64(start - SumOver(es[..i], freqs[..]))
      {
        assert es[..i + 1][..i] == es[..i];
        var freq: int := freqs[es[i].id];
        ToInt64Accumulates(start - SumOver(es[..i], freqs[..]), -freq);
        left := ToInt64(left - freq);
      }
      assert es[..|es|] == es;
    }

    /** Pushes the tree children of `cur`; false when the stack would outgrow its buffer. */
    method PushChildren(cur: nat, stack: array<nat>, stackTop: nat) returns (ok: bool, top: nat)
      requires Built() && cur < numNodes && stackTop <= stack.Length == numNodes
      requires stack as object != cfgNodes && stack as object != spanningTreeNodes
      modifies stack
      ensures ok <==> stackTop + |Children(d, cur)| <= numNodes
      ensures ok ==> top == stackTop + |Children(d, cur)| && stack[..top] == old(stack[..stackTop]) + Children(d, cur)
    {
      var out := spanningTreeNodes[cur].outEdges;
      ghost var cs := Children(d, cur);
      top := stackTop;
      for i := 0 to |out|
        invariant top == stackTop + i <= numNodes
        invariant stack[..top] == old(stack[..stackTop]) + cs[..i]
      {
        if top >= numNodes { return false, top; }
        stack[top] := out[i].node;
        top := top + 1;
        assert cs[..i + 1] == cs[..i] + [out[i].node];
      }
      ok := true;
    }

    /** The frequency of `cur` before its calls are looked at. */
    method BlockFrequencyOf(cur: nat, counters: seq<nat>, leafFrequency: array<nat>, freqs: array<nat>) returns (freq: int)
      requires Built() && cur < numNodes && CountersExist(d, counters) && freqs.Length == |d.edges|
      requires leafFrequency.Length == numNodes && leafFrequency[cur] == Leaf(d, counters, cur)
      ensures freq == BlockFrom(d, counters, freqs[..], cur)
    {
      freq := ToInt64(leafFrequency[cur]);
      if freq == 0 {
        SumOverOutEdges(d, freqs[..], cur, |d.edges|);
        freq := AddUp(cfgNodes[cur].outEdges, freqs);
      }
    }

    /** The frequency of `cur`, once its calls are set and it is recorded at its entry point, if it is one. */
    method NodeFrequencyOf(cur: nat, counters: seq<nat>, leafFrequency: array<nat>, entryAddress: array<nat>,
                           callMap: NodeToCallsMap, freqs: array<nat>, calls: array<nat>, ctx: CallFlowTable)
      returns (freq: int)
      requires Built() && cur < numNodes && CountersExist(d, counters)
      requires leafFrequency.Length == entryAddress.Length == numNodes
      requires leafFrequency[cur] == Leaf(d, counters, cur) && entryAddress[cur] == EntryOf(d, cur)
      requires callMap.d == d && callMap.Valid(numNodes)
      requires freqs.Length == |d.edges| && calls.Length == |d.calls|
      requires freqs != calls && calls != entryAddress
      requires forall c :: 0 <= c < |d.calls| && d.calls[c].fromNode == cur ==> calls[c] == 0
      requires ctx.Valid()
      modifies calls, ctx
      ensures ctx.Valid()
      ensures freq == NodeFrom(d, counters, freqs[..], cur)
      ensures SetsCallsIn(d, counters, old(calls[..]), calls[..], cur, ClampToZero(BlockFrom(d, counters, freqs[..], cur)))
      ensures TotalsFollow(d, old(ctx.calls), ctx.calls, old(calls[..]), calls[..])
      ensures ctx.vals == if freq > 0 && EntryOf(d, cur) != 0 then old(ctx.vals)[EntryOf(d, cur) := freq] else old(ctx.vals)
    {
      freq := BlockFrequencyOf(cur, counters, leafFrequency, freqs);
      if freq < 0 { freq := 0; }
      var callFreq := callMap.VisitAllCallsIn(cur, freq, calls, counters, ctx);
      freq := ToInt64(if callFreq > freq then callFreq else freq);
      if freq > 0 && entryAddress[cur] != 0 {
        ctx.SetVal(entryAddress[cur], freq);
      }
    }

    /**
     Gives what is left of the frequency of `cur` to its parent edge. False when
     a node that is no root does not have exactly one parent.
     */
    method SetParentEdge(cur: nat, freq: int, freqs: array<nat>) returns (ok: bool)
      requires Built() && cur < numNodes && freqs.Length == |d.edges| && -TWO63 <= freq < TWO63
      modifies freqs
      ensures ok <==> |InEdges(d, cur, true, |d.edges|)| <= 1
      ensures Root(d, cur) ==> freqs[..] == old(freqs[..])
      ensures ok && !Root(d, cur) ==>
                |InEdges(d, cur, true, |d.edges|)| == 1 &&
                var p := InEdges(d, cur, true, |d.edges|)[0].id;
                p < |d.edges| && freqs[..] == old(freqs[..])[p :=
                  ClampToZero(ToInt64(freq - InFlow(d, old(freqs[..]), cur, |d.edges|)))]
    {
      RootHasNoTreeInEdge(d, cur);
      var up := spanningTreeNodes[cur].inEdges;
      if |up| == 0 { return true; }
      if |up| != 1 { return false; }
      InEdgesAreListed(d, cur, true, |d.edges|);
      SumOverInEdges(d, freqs[..], cur, |d.edges|);
      var parentFreq := TakeAway(freq, cfgNodes[cur].inEdges, freqs);
      if parentFreq < 0 { parentFreq := 0; }
      freqs[up[0].id] := parentFreq;
      ok := true;
    }

    /**
     Finishes `cur`. Whenever the description is a forest with heights `h` and
     everything computed so far is final, so is what this adds.
     */
    method FinishNode(cur: nat, counters: seq<nat>, leafFrequency: array<nat>, entryAddress: array<nat>,
                      callMap: NodeToCallsMap, freqs: array<nat>, calls: array<nat>, ctx: CallFlowTable,
                      ghost marks: seq<Status>, ghost h: seq<nat>, ghost was: map<nat, nat>)
      returns (ok: bool)
      requires Built() && cur < numNodes && CountersExist(d, counters)
      requires leafFrequency.Length == entryAddress.Length == numNodes
      requires leafFrequency[cur] == Leaf(d, counters, cur) && entryAddress[cur] == EntryOf(d, cur)
      requires callMap.d == d && callMap.Valid(numNodes)
      requires freqs.Length == |d.edges| && calls.Length == |d.calls|
      requires freqs != calls && calls != entryAddress
      requires forall c :: 0 <= c < |d.calls| && d.calls[c].fromNode == cur ==> calls[c] == 0
      requires ctx.Valid()
      requires |marks| == numNodes && marks[cur] == Visiting
      requires Forest(d) ==> forall e :: TreeEdge(d, e) && d.edges[e].fromNode == cur ==> marks[d.edges[e].toNode] == Visited
      requires Forest(d) && Heights(d, numNodes, h) ==>
                 EdgesInv(d, numNodes, counters, h, freqs[..], marks) && CallsInv(d, numNodes, counters, h, calls[..], marks)
      requires Forest(d) && Heights(d, numNodes, h) && DistinctEntries(d, numNodes) ==>
                 EntriesInv(d, numNodes, counters, h, was, ctx.vals, marks)
      modifies freqs, calls, ctx
      ensures ctx.Valid()
      ensures Forest(d) ==> ok
      ensures forall c :: 0 <= c < |d.calls| && d.calls[c].fromNode != cur ==> calls[c] == old(calls[c])
      ensures TotalsFollow(d, old(ctx.calls), ctx.calls, old(calls[..]), calls[..])
      ensures Forest(d) && Heights(d, numNodes, h) ==>
                EdgesInv(d, numNodes, counters, h, freqs[..], marks[cur := Visited]) &&
                CallsInv(d, numNodes, counters, h, calls[..], marks[cur := Visited])
      ensures Forest(d) && Heights(d, numNodes, h) && DistinctEntries(d, numNodes) ==>
                EntriesInv(d, numNodes, counters, h, was, ctx.vals, marks[cur := Visited])
    {
      ghost var wasFreqs, wasCalls, wasVals := freqs[..], calls[..], ctx.vals;
      var freq := NodeFrequencyOf(cur, counters, leafFrequency, entryAddress, callMap, freqs, calls, ctx);
      assert freqs[..] == wasFreqs;
      ok := SetParentEdge(cur, freq, freqs);
      if Forest(d) {
        if !Root(d, cur) { ForestHasOneParent(d, cur); } else { RootHasNoTreeInEdge(d, cur); }
        if Heights(d, numNodes, h) {
          NodeIsFinal(d, numNodes, counters, h, wasFreqs, marks, cur);
          FinishKeepsEdges(d, numNodes, counters, h, wasFreqs, marks, cur);
          FinishKeepsCalls(d, numNodes, counters, h, wasCalls, calls[..], marks, cur);
          if DistinctEntries(d, numNodes) {
            FinishKeepsEntries(d, numNodes, counters, h, was, wasVals, ctx.vals, marks, cur);
          }
        }
      }
    }

    /** The counter of every node's last leaf record, zero where there is none. */
    static method LoadLeafFrequencies(d: FunctionDescription, n: nat, counters: seq<nat>) returns (leafFrequency: array<nat>)
      requires Covers(d, n) && CountersExist(d, counters)
      ensures fresh(leafFrequency) && leafFrequency.Length == n
      ensures forall v :: 0 <= v < n ==>
                LeafIs(d, counters, v, leafFrequency[v], |d.leafNodes|) && leafFrequency[v] == Leaf(d, counters, v)
    {
      leafFrequency := new nat[n](_ => 0);
      for i := 0 to |d.leafNodes|
        invariant forall v :: 0 <= v < n ==> leafFrequency[v] == LeafFrequency(d, counters, v, i)
      {
        leafFrequency[d.leafNodes[i].node] := counters[d.leafNodes[i].counter];
      }
      forall v | 0 <= v < n ensures LeafIs(d, counters, v, leafFrequency[v], |d.leafNodes|) {
        LeafIsLastRecord(d, counters, v, |d.leafNodes|);
      }
    }

    /** The address of every entry node, zero where there is none. */
    static method LoadEntryAddresses(d: FunctionDescription, n: nat) returns (entryAddress: array<nat>)
      requires EntryNodesCovered(d, n)
      ensures fresh(entryAddress) && entryAddress.Length == n
      ensures forall v :: 0 <= v < n ==> EntryIs(d, v, entryAddress[v], |d.entryNodes|) && entryAddress[v] == EntryOf(d, v)
    {
      entryAddress := new nat[n](_ => 0);
      for i := 0 to |d.entryNodes|
        invariant forall v :: 0 <= v < n ==> entryAddress[v] == EntryAddress(d, v, i)
      {
        entryAddress[d.entryNodes[i].node] := d.entryNodes[i].address;
      }
      forall v | 0 <= v < n ensures EntryIs(d, v, entryAddress[v], |d.entryNodes|) {
        EntryIsLastRecord(d, v, |d.entryNodes|);
      }
    }

    /** Pushes every node without a tree parent. */
    method PushRoots(stack: array<nat>) returns (top: nat)
      requires Built() && stack.Length == numNodes
      modifies stack
      ensures top <= numNodes && forall i, j :: 0 <= i < j < top ==> stack[i] < stack[j]
      ensures forall k :: 0 <= k < top ==> stack[k] < numNodes
      ensures forall v :: 0 <= v < numNodes ==> (v in stack[..top] <==> Root(d, v))
    {
      top := 0;
      for i := 0 to numNodes
        invariant top <= i
        invariant forall i', j :: 0 <= i' < j < top ==> stack[i'] < stack[j]
        invariant forall k :: 0 <= k < top ==> stack[k] < i
        invariant forall v :: 0 <= v < i ==> (v in stack[..top] <==> Root(d, v))
      {
        RootHasNoTreeInEdge(d, i);
        if |spanningTreeNodes[i].inEdges| == 0 {
          ghost var was := stack[..top];
          stack[top] := i;
          top := top + 1;
          assert stack[..top] == was + [i];
        }
      }
    }

    /** Fills in the edges that have counters. */
    static method LoadKnownCounts(d: FunctionDescription, counters: seq<nat>, freqs: array<nat>)
      requires CountersExist(d, counters) && freqs.Length == |d.edges|
      requires forall e :: 0 <= e < |d.edges| ==> freqs[e] == 0
      modifies freqs
      ensures forall e :: 0 <= e < |d.edges| ==>
                freqs[e] == if d.edges[e].counter == NO_COUNTER then 0 else counters[d.edges[e].counter]
    {
      for i := 0 to |d.edges|
        invariant forall e :: 0 <= e < i ==>
          freqs[e] == if d.edges[e].counter == NO_COUNTER then 0 else counters[d.edges[e].counter]
        invariant forall e :: i <= e < |d.edges| ==> freqs[e] == 0
      {
        if d.edges[i].counter != NO_COUNTER {
          freqs[i] := counters[d.edges[i].counter];
        }
      }
    }

    /** The edge frequencies; a null array stands for none. */
    ghost function EdgeFreqs(): seq<nat>
      reads this, edgeFreqs
    {
      if edgeFreqs == null then [] else edgeFreqs[..]
    }

    ghost function CallFreqs(): seq<nat>
      reads this, callFreqs
    {
      if callFreqs == null then [] else callFreqs[..]
    }

    /**
     Fills in the frequency of every edge and call by walking the spanning
     forest bottom-up with an explicit stack. `ok` is false when one of the
     checks stopped the program; `order` lists the finished nodes.
     */
    method ComputeEdgeFrequencies(counters: seq<nat>, ctx: CallFlowTable, ghost h: seq<nat>)
      returns (ok: bool, ghost order: seq<nat>)
      requires Built() && CountersExist(d, counters) && EntryNodesCovered(d, numNodes)
      requires edgeFreqs == null && callFreqs == null && ctx.Valid()
      modifies this`edgeFreqs, this`callFreqs, ctx
      ensures Built() && ctx.Valid()
      // With no nodes, or no root to start from, nothing is computed
      ensures (forall v :: 0 <= v < numNodes ==> !Root(d, v)) ==>
                ok && edgeFreqs == null && callFreqs == null && ctx.calls == old(ctx.calls) && ctx.vals == old(ctx.vals)
      // On a forest no check ever fails, and exactly the nodes below a root are finished
      ensures Forest(d) ==> ok && FinishedAll(d, numNodes, order)
      ensures ok && (exists v :: 0 <= v < numNodes && Root(d, v)) ==>
                |EdgeFreqs()| == |d.edges| && |CallFreqs()| == |d.calls| &&
                TotalsInclude(d, old(ctx.calls), ctx.calls, CallFreqs())
      // Without tree cycles every frequency is the one the specification gives
      ensures numNodes > 0 && Forest(d) && Heights(d, numNodes, h) ==>
                FrequenciesAreFinal(d, numNodes, counters, h, EdgeFreqs(), CallFreqs(), old(ctx.vals), ctx.vals)
    {
      ok, order := true, [];
      if numNodes == 0 { return; }
      var stack := new nat[numNodes](_ => 0);
      var stackTop := PushRoots(stack);
      if stackTop == 0 {
        if Heights(d, numNodes, h) { var r := RootAbove(d, numNodes, h, 0); }
        return;
      }
      assert Root(d, stack[0]) by { assert stack[0] in stack[..stackTop]; }
      var freqs, calls;
      ok, order, freqs, calls := ComputeFromRoots(counters, ctx, h, stack, stackTop);
      edgeFreqs := if |d.edges| > 0 then freqs else null;
      callFreqs := if |d.calls| > 0 then calls else null;
      assert EdgeFreqs() == freqs[..] && CallFreqs() == calls[..];
    }

    /** The rest of `ComputeEdgeFrequencies`, once the roots are on the stack. */
    method ComputeFromRoots(counters: seq<nat>, ctx: CallFlowTable, ghost h: seq<nat>, stack: array<nat>, roots: nat)
      returns (ok: bool, ghost order: seq<nat>, freqs: array<nat>, calls: array<nat>)
      requires Built() && CountersExist(d, counters) && EntryNodesCovered(d, numNodes) && ctx.Valid()
      requires roots <= stack.Length == numNodes && Distinct(stack[..roots])
      requires forall k :: 0 <= k < roots ==> stack[k] < numNodes
      requires forall v :: 0 <= v < numNodes ==> (v in stack[..roots] <==> Root(d, v))
      modifies ctx, stack
      ensures ctx.Valid() && fresh(freqs) && fresh(calls) && freqs.Length == |d.edges| && calls.Length == |d.calls|
      ensures Forest(d) ==> ok && FinishedAll(d, numNodes, order)
      ensures TotalsInclude(d, old(ctx.calls), ctx.calls, calls[..])
      ensures Forest(d) && Heights(d, numNodes, h) ==>
                FrequenciesAreFinal(d, numNodes, counters, h, freqs[..], calls[..], old(ctx.vals), ctx.vals)
    {
      freqs := new nat[|d.edges|](_ => 0);
      calls := new nat[|d.calls|](_ => 0);
      var callMap := new NodeToCallsMap(d, numNodes);
      var visited := new Status[numNodes](_ => New);
      var leafFrequency := LoadLeafFrequencies(d, numNodes, counters);
      var entryAddress := LoadEntryAddresses(d, numNodes);
      LoadKnownCounts(d, counters, freqs);
      StateStarts(d, numNodes, counters, h, stack[..roots], visited[..], freqs[..], calls[..], ctx.vals);
      TotalsStay(d, ctx.calls, calls[..]);
      ghost var zeros := calls[..];
      ok, order := Walk(counters, ctx, h, freqs, calls, callMap, stack, visited, leafFrequency, entryAddress, roots, ctx.vals);
      TotalsFromZero(d, old(ctx.calls), ctx.calls, zeros, calls[..]);
      if Forest(d) {
        StateEnds(d, numNodes, counters, h, visited[..], order, freqs[..], calls[..], old(ctx.vals), ctx.vals);
      }
    }

    /** Pops an unvisited node, pushes it back as being visited, and pushes its tree children above it. */
    method OpenNode(stack: array<nat>, visited: array<Status>, top: nat, counters: seq<nat>, ghost h: seq<nat>,
                    ghost order: seq<nat>, ghost freqs: seq<nat>, ghost calls: seq<nat>, ghost was: map<nat, nat>, ghost vals: map<nat, nat>)
      returns (ok: bool, stackTop: nat)
      requires Built() && 0 < top <= stack.Length == visited.Length == numNodes
      requires WalkState(d, numNodes, counters, h, stack[..top], visited[..], order, freqs, calls, was, vals)
      requires visited[stack[top - 1]] == New
      modifies stack, visited
      ensures Forest(d) ==> ok
      ensures ok ==> stackTop <= numNodes &&
                     WalkState(d, numNodes, counters, h, stack[..stackTop], visited[..], order, freqs, calls, was, vals)
      ensures Work(visited[..]) < Work(old(visited[..]))
    {
      ghost var s, marks := stack[..top], visited[..];
      var cur := stack[top - 1];
      StateAfterPush(d, numNodes, counters, h, s, marks, order, freqs, calls, was, vals);
      WorkDrops(marks, cur, Visiting);
      visited[cur] := Visiting;
      assert visited[..] == marks[cur := Visiting];
      stack[top - 1] := cur;
      assert stack[..top] == s;
      ok, stackTop := PushChildren(cur, stack, top);
    }

    /** Pops a node that was being visited and finishes it. */
    method CloseNode(stack: array<nat>, visited: array<Status>, top: nat, counters: seq<nat>, ctx: CallFlowTable,
                     callMap: NodeToCallsMap, freqs: array<nat>, calls: array<nat>,
                     leafFrequency: array<nat>, entryAddress: array<nat>, ghost h: seq<nat>, ghost order: seq<nat>, ghost was: map<nat, nat>)
      returns (ok: bool)
      requires Built() && CountersExist(d, counters) && ctx.Valid()
      requires callMap.d == d && callMap.Valid(numNodes)
      requires stack.Length == visited.Length == leafFrequency.Length == entryAddress.Length == numNodes
      requires freqs.Length == |d.edges| && calls.Length == |d.calls|
      requires freqs != calls && freqs != stack && calls != stack && calls != entryAddress
      requires forall v :: 0 <= v < numNodes ==> leafFrequency[v] == Leaf(d, counters, v) && entryAddress[v] == EntryOf(d, v)
      requires 0 < top <= numNodes
      requires WalkState(d, numNodes, counters, h, stack[..top], visited[..], order, freqs[..], calls[..], was, ctx.vals)
      requires visited[stack[top - 1]] == Visiting
      modifies ctx, freqs, calls, visited
      ensures ctx.Valid()
      ensures Forest(d) ==> ok
      ensures ok ==> WalkState(d, numNodes, counters, h, stack[..top - 1], visited[..], order + [stack[top - 1]],
                               freqs[..], calls[..], was, ctx.vals)
      ensures TotalsFollow(d, old(ctx.calls), ctx.calls, old(calls[..]), calls[..])
      ensures Work(visited[..]) < Work(old(visited[..]))
    {
      ghost var s, marks := stack[..top], visited[..];
      var cur := stack[top - 1];
      if Forest(d) { FinishStep(d, numNodes, s, marks, order); }
      WorkDrops(marks, cur, Visited);
      visited[cur] := Visited;
      assert visited[..] == marks[cur := Visited];
      ok := FinishNode(cur, counters, leafFrequency, entryAddress, callMap, freqs, calls, ctx, marks, h, was);
      StateAfterFinish(d, numNodes, counters, h, s, marks, order, old(freqs[..]), old(calls[..]), was, old(ctx.vals),
                       freqs[..], calls[..], ctx.vals);
      assert s[..top - 1] == stack[..top - 1];
    }

    /** The loop of `ComputeEdgeFrequencies`, from the moment the roots are on the stack. */
    method Walk(counters: seq<nat>, ctx: CallFlowTable, ghost h: seq<nat>, freqs: array<nat>, calls: array<nat>,
                callMap: NodeToCallsMap, stack: array<nat>, visited: array<Status>,
                leafFrequency: array<nat>, entryAddress: array<nat>, roots: nat, ghost was: map<nat, nat>)
      returns (ok: bool, ghost order: seq<nat>)
      requires Built() && CountersExist(d, counters) && ctx.Valid()
      requires callMap.d == d && callMap.Valid(numNodes)
      requires stack.Length == visited.Length == leafFrequency.Length == entryAddress.Length == numNodes
      requires freqs.Length == |d.edges| && calls.Length == |d.calls| && roots <= numNodes
      requires freqs != calls && freqs != stack && freqs != leafFrequency && freqs != entryAddress
      requires calls != stack && calls != leafFrequency && calls != entryAddress
      requires stack != leafFrequency && stack != entryAddress
      requires forall v :: 0 <= v < numNodes ==> leafFrequency[v] == Leaf(d, counters, v) && entryAddress[v] == EntryOf(d, v)
      requires WalkState(d, numNodes, counters, h, stack[..roots], visited[..], [], freqs[..], calls[..], was, ctx.vals)
      requires TotalsFollow(d, ctx.calls, ctx.calls, calls[..], calls[..])
      modifies ctx, freqs, calls, stack, visited
      ensures ctx.Valid()
      ensures Forest(d) ==> ok
      ensures ok ==> WalkState(d, numNodes, counters, h, [], visited[..], order, freqs[..], calls[..], was, ctx.vals)
      ensures TotalsFollow(d, old(ctx.calls), ctx.calls, old(calls[..]), calls[..])
    {
      var stackTop := roots;
      order := [];
      ok := true;
      while stackTop > 0
        invariant 0 <= stackTop <= numNodes && ctx.Valid()
        invariant WalkState(d, numNodes, counters, h, stack[..stackTop], visited[..], order, freqs[..], calls[..], was, ctx.vals)
        invariant TotalsFollow(d, old(ctx.calls), ctx.calls, old(calls[..]), calls[..])
        decreases Work(visited[..])
      {
        var cur := stack[stackTop - 1];
        assert cur == stack[..stackTop][stackTop - 1];
        if visited[cur] == Visited {
          // Only without a forest
          return false, order;
        }
        if visited[cur] == New {
          ok, stackTop := OpenNode(stack, visited, stackTop, counters, h, order, freqs[..], calls[..], was, ctx.vals);
        } else {
          ghost var wasCalls, wasTotals := calls[..], ctx.calls;
          ok := CloseNode(stack, visited, stackTop, counters, ctx, callMap, freqs, calls, leafFrequency, entryAddress, h, order, was);
          TotalsFollowOn(d, old(ctx.calls), wasTotals, ctx.calls, old(calls[..]), wasCalls, calls[..]);
          stackTop := stackTop - 1;
          order := order + [cur];
        }
        if !ok { return; }
      }
    }
  }

  /** Every node's edge sets hold the selected ones of the first `i` edges. */
  ghost predicate NodesHold(d: FunctionDescription, nodes: seq<Node>, tree: bool, i: nat)
    requires i <= |d.edges|
  {
    forall v :: 0 <= v < |nodes| ==>
      nodes[v].outEdges == OutEdges(d, v, tree, i) && nodes[v].inEdges == InEdges(d, v, tree, i)
  }
}
