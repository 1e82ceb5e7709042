/**
 Every allocation and deallocation made while the profile of one function is
 written, in the order and under the conditions the code makes them.
 */
module GraphMemory {
  import opened FlowSpec
  import opened BumpAllocator
  import opened FlowValues

  /** How a run ends: normally, or with the program stopped by one of the allocator's checks. */
  datatype Outcome = Done | OutOfMemory | BadDeallocate

  /** The live blocks are those of `base` with, on top of them, the ones `ptrs` points to, in that order. */
  ghost predicate Owns(blocks: seq<Block>, base: seq<Block>, ptrs: seq<nat>) {
    if ptrs == [] then blocks == base
    else
      && blocks != [] && blocks[|blocks| - 1].Payload() == ptrs[|ptrs| - 1]
      && Owns(blocks[..|blocks| - 1], base, ptrs[..|ptrs| - 1])
  }

  lemma OwnsOneMore(blocks: seq<Block>, base: seq<Block>, ptrs: seq<nat>, block: Block)
    requires Owns(blocks, base, ptrs)
    ensures Owns(blocks + [block], base, ptrs + [block.Payload()])
  {
    assert (blocks + [block])[..|blocks|] == blocks;
    assert (ptrs + [block.Payload()])[..|ptrs|] == ptrs;
  }

  lemma OwnsOneLess(blocks: seq<Block>, base: seq<Block>, ptrs: seq<nat>, ptr: nat)
    requires Owns(blocks, base, ptrs + [ptr])
    ensures blocks != [] && blocks[|blocks| - 1].Payload() == ptr && Owns(blocks[..|blocks| - 1], base, ptrs)
  {
    assert (ptrs + [ptr])[..|ptrs|] == ptrs;
  }

  /** `ptrs` with `ptr` after it; the null pointer adds nothing. */
  function Onto(ptrs: seq<nat>, ptr: nat): seq<nat> { if ptr == 0 then ptrs else ptrs + [ptr] }

  /** The edge buffers of one node; zero is the null pointer. */
  datatype NodeBuffers = NodeBuffers(cfgIn: nat, cfgOut: nat, treeIn: nat, treeOut: nat) {
    function On(ptrs: seq<nat>): seq<nat> { Onto(Onto(Onto(Onto(ptrs, cfgIn), cfgOut), treeIn), treeOut) }
  }

  function AllOn(ptrs: seq<nat>, nodes: seq<NodeBuffers>): seq<nat> {
    if nodes == [] then ptrs else nodes[|nodes| - 1].On(AllOn(ptrs, nodes[..|nodes| - 1]))
  }

  function CallsOn(ptrs: seq<nat>, calls: seq<nat>): seq<nat> {
    if calls == [] then ptrs else Onto(CallsOn(ptrs, calls[..|calls| - 1]), calls[|calls| - 1])
  }

  /** `new (Alloc) T[...]` if `size` is not zero, else a null pointer. */
  method New(alloc: BumpPtrAllocator, size: nat, ghost base: seq<Block>, ghost ptrs: seq<nat>) returns (ok: bool, ptr: nat)
    requires alloc.Valid() && Owns(alloc.blocks, base, ptrs)
    modifies alloc, alloc.words
    ensures ok ==> alloc.Valid() && (ptr == 0 <==> size == 0) && Owns(alloc.blocks, base, Onto(ptrs, ptr))
  {
    if size == 0 {
      return true, 0;
    }
    ghost var was := alloc.blocks;
    ok, ptr := alloc.Allocate(size);
    if ok { OwnsOneMore(was, base, ptrs, alloc.blocks[|was|]); }
  }

  /** `if (ptr) Alloc.deallocate(ptr)`, for the pointer that was allocated last. */
  method Delete(alloc: BumpPtrAllocator, ptr: nat, ghost base: seq<Block>, ghost ptrs: seq<nat>) returns (ok: bool)
    requires alloc.Valid() && Owns(alloc.blocks, base, Onto(ptrs, ptr))
    modifies alloc
    ensures ok && alloc.Valid() && Owns(alloc.blocks, base, ptrs)
  {
    if ptr == 0 {
      return true;
    }
    OwnsOneLess(alloc.blocks, base, ptrs, ptr);
    ok := alloc.Deallocate(ptr);
  }

  // ---------- Edge buffers ----------

  const SIZEOF_GRAPH: nat := 56
  const SIZEOF_NODE: nat := 24
  const SIZEOF_EDGE: nat := 8
  const SIZEOF_CALLS_MAP: nat := 24
  const SIZEOF_MAP_ENTRY: nat := 16

  /** In- and out-degree of a node in the CFG or in the spanning forest. */
  datatype Degrees = Degrees(ins: nat, outs: nat)

  function DegreesOf(d: FunctionDescription, v: nat, tree: bool, i: nat): Degrees
    requires i <= |d.edges|
  {
    Degrees(|InEdges(d, v, tree, i)|, |OutEdges(d, v, tree, i)|)
  }

  /** There is a buffer exactly for each kind of edges that the node has. */
  predicate Suits(b: NodeBuffers, cfg: Degrees, tree: Degrees) {
    && (b.cfgIn == 0 <==> cfg.ins == 0) && (b.cfgOut == 0 <==> cfg.outs == 0)
    && (b.treeIn == 0 <==> tree.ins == 0) && (b.treeOut == 0 <==> tree.outs == 0)
  }

  /** The first pass over the edges: how much room each node needs. */
  method CountEdges(d: FunctionDescription, n: nat, tree: bool) returns (degrees: array<Degrees>)
    requires Covers(d, n)
    ensures fresh(degrees) && degrees.Length == n
    ensures forall v :: 0 <= v < n ==> degrees[v] == DegreesOf(d, v, tree, |d.edges|)
  {
    degrees := new Degrees[n](_ => Degrees(0, 0));
    for i := 0 to |d.edges|
      invariant forall v :: 0 <= v < n ==> degrees[v] == DegreesOf(d, v, tree, i)
    {
      if Selected(d, tree, i) {
        var src, dst := d.edges[i].fromNode, d.edges[i].toNode;
        degrees[src] := degrees[src].(outs := degrees[src].outs + 1);
        degrees[dst] := degrees[dst].(ins := degrees[dst].ins + 1);
      }
    }
  }

  /** The four buffers of one node, each only if it has edges of that kind. */
  method NewBuffers(alloc: BumpPtrAllocator, cfg: Degrees, tree: Degrees, ghost base: seq<Block>, ghost ptrs: seq<nat>)
    returns (ok: bool, b: NodeBuffers)
    requires alloc.Valid() && Owns(alloc.blocks, base, ptrs)
    modifies alloc, alloc.words
    ensures ok ==> alloc.Valid() && Owns(alloc.blocks, base, b.On(ptrs))
    ensures ok ==> Suits(b, cfg, tree)
  {
    b := NodeBuffers(0, 0, 0, 0);
    var p, q, r, s;
    ok, p := New(alloc, SIZEOF_EDGE * cfg.ins, base, ptrs);
    if !ok { return; }
    ok, q := New(alloc, SIZEOF_EDGE * cfg.outs, base, Onto(ptrs, p));
    if !ok { return; }
    ok, r := New(alloc, SIZEOF_EDGE * tree.ins, base, Onto(Onto(ptrs, p), q));
    if !ok { return; }
    ok, s := New(alloc, SIZEOF_EDGE * tree.outs, base, Onto(Onto(Onto(ptrs, p), q), r));
    b := NodeBuffers(p, q, r, s);
  }

  method DeleteBuffers(alloc: BumpPtrAllocator, b: NodeBuffers, ghost base: seq<Block>, ghost ptrs: seq<nat>) returns (ok: bool)
    requires alloc.Valid() && Owns(alloc.blocks, base, b.On(ptrs))
    modifies alloc
    ensures ok && alloc.Valid() && Owns(alloc.blocks, base, ptrs)
  {
    ghost var one := Onto(ptrs, b.cfgIn);
    ghost var two := Onto(one, b.cfgOut);
    ok := Delete(alloc, b.treeOut, base, Onto(two, b.treeIn));
    ok := Delete(alloc, b.treeIn, base, two);
    ok := Delete(alloc, b.cfgOut, base, one);
    ok := Delete(alloc, b.cfgIn, base, ptrs);
  }

  lemma AllOnMore(ptrs: seq<nat>, buffers: seq<NodeBuffers>, b: NodeBuffers)
    ensures AllOn(ptrs, buffers + [b]) == b.On(AllOn(ptrs, buffers))
  {
    assert (buffers + [b])[..|buffers|] == buffers;
  }

  method NewAllBuffers(alloc: BumpPtrAllocator, cfg: seq<Degrees>, tree: seq<Degrees>, ghost base: seq<Block>, ghost ptrs: seq<nat>)
    returns (ok: bool, buffers: seq<NodeBuffers>)
    requires alloc.Valid() && Owns(alloc.blocks, base, ptrs) && |cfg| == |tree|
    modifies alloc, alloc.words
    ensures ok ==> alloc.Valid() && Owns(alloc.blocks, base, AllOn(ptrs, buffers)) && |buffers| == |cfg|
    ensures ok ==> forall v :: 0 <= v < |cfg| ==> Suits(buffers[v], cfg[v], tree[v])
  {
    buffers := [];
    for v := 0 to |cfg|
      invariant alloc.Valid() && |buffers| == v && Owns(alloc.blocks, base, AllOn(ptrs, buffers))
      invariant forall u :: 0 <= u < v ==> Suits(buffers[u], cfg[u], tree[u])
    {
      var b;
      ok, b := NewBuffers(alloc, cfg[v], tree[v], base, AllOn(ptrs, buffers));
      if !ok { return; }
      AllOnMore(ptrs, buffers, b);
      buffers := buffers + [b];
    }
    ok := true;
  }

  lemma AllOnLast(ptrs: seq<nat>, buffers: seq<NodeBuffers>, i: nat)
    requires i < |buffers|
    ensures AllOn(ptrs, buffers[..i + 1]) == buffers[i].On(AllOn(ptrs, buffers[..i]))
  {
    assert buffers[..i + 1][..i] == buffers[..i];
  }

  method DeleteAllBuffers(alloc: BumpPtrAllocator, buffers: seq<NodeBuffers>, ghost base: seq<Block>, ghost ptrs: seq<nat>)
    returns (ok: bool)
    requires alloc.Valid() && Owns(alloc.blocks, base, AllOn(ptrs, buffers))
    modifies alloc
    ensures ok && alloc.Valid() && Owns(alloc.blocks, base, ptrs)
  {
    ok := true;
    var i := |buffers|;
    assert buffers[..i] == buffers;
    while i > 0
      invariant ok && i <= |buffers| && alloc.Valid() && Owns(alloc.blocks, base, AllOn(ptrs, buffers[..i]))
    {
      i := i - 1;
      AllOnLast(ptrs, buffers, i);
      ok := DeleteBuffers(alloc, buffers[i], base, AllOn(ptrs, buffers[..i]));
    }
  }

  /** Counts every node's edges and allocates its buffers. */
  method AllocateEdges(alloc: BumpPtrAllocator, d: FunctionDescription, n: nat, ghost base: seq<Block>, ghost ptrs: seq<nat>)
    returns (ok: bool, tree: seq<Degrees>, buffers: seq<NodeBuffers>)
    requires alloc.Valid() && Owns(alloc.blocks, base, ptrs) && Covers(d, n)
    modifies alloc, alloc.words
    ensures ok ==> alloc.Valid() && Owns(alloc.blocks, base, AllOn(ptrs, buffers)) && |buffers| == n
    ensures ok ==> forall v :: 0 <= v < n ==> Suits(buffers[v], DegreesOf(d, v, false, |d.edges|), DegreesOf(d, v, true, |d.edges|))
    ensures |tree| == n && forall v :: 0 <= v < n ==> tree[v] == DegreesOf(d, v, true, |d.edges|)
  {
    var cfg := CountEdges(d, n, false);
    var forest := CountEdges(d, n, true);
    tree := forest[..];
    ok, buffers := NewAllBuffers(alloc, cfg[..], tree, base, ptrs);
  }

  // ---------- Scratch space ----------

  method CountRoots(tree: seq<Degrees>) returns (roots: nat)
    ensures roots == 0 <==> forall v :: 0 <= v < |tree| ==> tree[v].ins > 0
  {
    roots := 0;
    for v := 0 to |tree|
      invariant roots == 0 <==> forall u :: 0 <= u < v ==> tree[u].ins > 0
    {
      if tree[v].ins == 0 { roots := roots + 1; }
    }
  }

  /** How many calls each node makes. */
  method CountCalls(d: FunctionDescription, n: nat) returns (counts: array<nat>)
    requires Covers(d, n)
    ensures fresh(counts) && counts.Length == n
    ensures forall v :: 0 <= v < n ==> counts[v] == |CallsIn(d, v, |d.calls|)|
  {
    counts := new nat[n](_ => 0);
    for i := 0 to |d.calls|
      invariant forall v :: 0 <= v < n ==> counts[v] == |CallsIn(d, v, i)|
    {
      counts[d.calls[i].fromNode] := counts[d.calls[i].fromNode] + 1;
    }
  }

  /** A list of calls for every node that makes any. */
  method NewCallLists(alloc: BumpPtrAllocator, counts: seq<nat>, ghost base: seq<Block>, ghost ptrs: seq<nat>)
    returns (ok: bool, lists: seq<nat>)
    requires alloc.Valid() && Owns(alloc.blocks, base, ptrs)
    modifies alloc, alloc.words
    ensures ok ==> alloc.Valid() && Owns(alloc.blocks, base, CallsOn(ptrs, lists))
  {
    lists := [];
    for v := 0 to |counts|
      invariant alloc.Valid() && |lists| == v && Owns(alloc.blocks, base, CallsOn(ptrs, lists))
    {
      var list;
      ok, list := New(alloc, 4 * counts[v], base, CallsOn(ptrs, lists));
      if !ok { return; }
      assert (lists + [list])[..|lists|] == lists;
      lists := lists + [list];
    }
    ok := true;
  }

  method DeleteCallLists(alloc: BumpPtrAllocator, lists: seq<nat>, ghost base: seq<Block>, ghost ptrs: seq<nat>)
    returns (ok: bool)
    requires alloc.Valid() && Owns(alloc.blocks, base, CallsOn(ptrs, lists))
    modifies alloc
    ensures ok && alloc.Valid() && Owns(alloc.blocks, base, ptrs)
  {
    ok := true;
    var i := |lists|;
    assert lists[..i] == lists;
    while i > 0
      invariant ok && i <= |lists| && alloc.Valid() && Owns(alloc.blocks, base, CallsOn(ptrs, lists[..i]))
    {
      i := i - 1;
      assert lists[..i + 1][..i] == lists[..i];
      ok := Delete(alloc, lists[i], base, CallsOn(ptrs, lists[..i]));
    }
  }

  /** The call map, its entries and its lists, with the rest of the scratch space on top of them while it is needed. */
  method UseScratch(alloc: BumpPtrAllocator, d: FunctionDescription, n: nat, ghost base: seq<Block>, ghost ptrs: seq<nat>)
    returns (outcome: Outcome)
    requires alloc.Valid() && Owns(alloc.blocks, base, ptrs) && Covers(d, n) && n > 0
    modifies alloc, alloc.words
    ensures outcome != BadDeallocate
    ensures outcome == Done ==> alloc.Valid() && Owns(alloc.blocks, base, ptrs)
  {
    var ok, callMap, entries, lists;
    ok, callMap := New(alloc, SIZEOF_CALLS_MAP, base, ptrs);
    if !ok { return OutOfMemory; }
    ok, entries := New(alloc, SIZEOF_MAP_ENTRY * n, base, Onto(ptrs, callMap));
    if !ok { return OutOfMemory; }
    ghost var map_ := Onto(Onto(ptrs, callMap), entries);
    var counts := CountCalls(d, n);
    ok, lists := NewCallLists(alloc, counts[..], base, map_);
    if !ok { return OutOfMemory; }
    outcome := UseWalkArrays(alloc, n, base, CallsOn(map_, lists));
    if outcome != Done { return; }
    ok := DeleteCallLists(alloc, lists, base, map_);
    if !ok { return BadDeallocate; }
    ok := Delete(alloc, entries, base, Onto(ptrs, callMap));
    if !ok { return BadDeallocate; }
    ok := Delete(alloc, callMap, base, ptrs);
    if !ok { return BadDeallocate; }
  }

  /** The stack, the marks and the two lookup arrays of the walk. */
  method UseWalkArrays(alloc: BumpPtrAllocator, n: nat, ghost base: seq<Block>, ghost ptrs: seq<nat>) returns (outcome: Outcome)
    requires alloc.Valid() && Owns(alloc.blocks, base, ptrs)
    modifies alloc, alloc.words
    ensures outcome != BadDeallocate
    ensures outcome == Done ==> alloc.Valid() && Owns(alloc.blocks, base, ptrs)
  {
    var ok, stack, visited, leafFrequency, entryAddress;
    ok, stack := New(alloc, 4 * n, base, ptrs);
    if !ok { return OutOfMemory; }
    ghost var one := Onto(ptrs, stack);
    ok, visited := New(alloc, n, base, one);
    if !ok { return OutOfMemory; }
    ghost var two := Onto(one, visited);
    ok, leafFrequency := New(alloc, 8 * n, base, two);
    if !ok { return OutOfMemory; }
    ghost var three := Onto(two, leafFrequency);
    ok, entryAddress := New(alloc, 8 * n, base, three);
    if !ok { return OutOfMemory; }
    ok := Delete(alloc, entryAddress, base, three);
    if !ok { return BadDeallocate; }
    ok := Delete(alloc, leafFrequency, base, two);
    if !ok { return BadDeallocate; }
    ok := Delete(alloc, visited, base, one);
    if !ok { return BadDeallocate; }
    ok := Delete(alloc, stack, base, ptrs);
    if !ok { return BadDeallocate; }
    outcome := Done;
  }

  // ---------- The graph ----------

  /** The pointers a `Graph` object holds. */
  class GraphPointers {
    var cfgNodes: nat
    var spanningTreeNodes: nat
    var edgeFreqs: nat
    var callFreqs: nat
    var buffers: seq<NodeBuffers>

    /** `ptrs` with everything the object owns after it, in the order it was allocated. */
    ghost function On(ptrs: seq<nat>): seq<nat>
      reads this
    {
      Onto(Onto(AllOn(Onto(Onto(ptrs, cfgNodes), spanningTreeNodes), buffers), edgeFreqs), callFreqs)
    }

    constructor ()
      ensures buffers == [] && cfgNodes == spanningTreeNodes == edgeFreqs == callFreqs == 0
    {
      cfgNodes, spanningTreeNodes, edgeFreqs, callFreqs, buffers := 0, 0, 0, 0, [];
    }

    /** The allocations of the constructor, before frequencies are computed. */
    method AllocateNodes(alloc: BumpPtrAllocator, d: FunctionDescription, n: nat, ghost base: seq<Block>, ghost ptrs: seq<nat>)
      returns (ok: bool, tree: seq<Degrees>)
      requires alloc.Valid() && Owns(alloc.blocks, base, ptrs) && Covers(d, n)
      requires buffers == [] && cfgNodes == spanningTreeNodes == edgeFreqs == callFreqs == 0
      modifies this, alloc, alloc.words
      ensures ok ==> alloc.Valid() && edgeFreqs == callFreqs == 0 && Owns(alloc.blocks, base, On(ptrs))
      ensures ok ==> |tree| == n && forall v :: 0 <= v < n ==> tree[v] == DegreesOf(d, v, true, |d.edges|)
      ensures ok ==> (cfgNodes == 0 <==> n == 0) && (spanningTreeNodes == 0 <==> n == 0) && |buffers| == n
      ensures ok ==> forall v :: 0 <= v < n ==> Suits(buffers[v], DegreesOf(d, v, false, |d.edges|), DegreesOf(d, v, true, |d.edges|))
    {
      ok, tree := true, [];
      if n == 0 { return; }
      var nodes, treeNodes;
      ok, nodes := New(alloc, SIZEOF_NODE * n, base, ptrs);
      if !ok { return; }
      ok, treeNodes := New(alloc, SIZEOF_NODE * n, base, Onto(ptrs, nodes));
      if !ok { return; }
      var bufs;
      ok, tree, bufs := AllocateEdges(alloc, d, n, base, Onto(Onto(ptrs, nodes), treeNodes));
      cfgNodes, spanningTreeNodes, buffers := nodes, treeNodes, bufs;
    }

    /**
     The allocations of `computeEdgeFrequencies`. Its results stay, unless there
     is no root to start from; everything else goes again before it returns.
     The walk itself allocates nothing here: the call flow table has its own allocator.
     */
    method ComputeFrequencies(alloc: BumpPtrAllocator, d: FunctionDescription, n: nat, tree: seq<Degrees>,
                              ghost base: seq<Block>, ghost ptrs: seq<nat>)
      returns (outcome: Outcome)
      requires alloc.Valid() && Owns(alloc.blocks, base, On(ptrs)) && Covers(d, n)
      requires edgeFreqs == callFreqs == 0 && |tree| == n
      modifies this, alloc, alloc.words
      ensures outcome != BadDeallocate
      ensures outcome == Done ==> alloc.Valid() && Owns(alloc.blocks, base, On(ptrs))
      ensures outcome == Done && (forall v :: 0 <= v < n ==> tree[v].ins > 0) ==> edgeFreqs == callFreqs == 0
    {
      if n == 0 { return Done; }
      var ok := NewFrequencies(alloc, d, base, ptrs);
      if !ok { return OutOfMemory; }
      outcome := UseScratch(alloc, d, n, base, On(ptrs));
      if outcome != Done { return; }
      var roots := CountRoots(tree);
      if roots == 0 { outcome := DropFrequencies(alloc, base, ptrs); }
    }

    method NewFrequencies(alloc: BumpPtrAllocator, d: FunctionDescription, ghost base: seq<Block>, ghost ptrs: seq<nat>) returns (ok: bool)
      requires alloc.Valid() && Owns(alloc.blocks, base, On(ptrs)) && edgeFreqs == callFreqs == 0
      modifies this`edgeFreqs, this`callFreqs, alloc, alloc.words
      ensures ok ==> alloc.Valid() && Owns(alloc.blocks, base, On(ptrs))
    {
      ghost var below := AllOn(Onto(Onto(ptrs, cfgNodes), spanningTreeNodes), buffers);
      ok, edgeFreqs := New(alloc, 8 * |d.edges|, base, below);
      if !ok { return; }
      ok, callFreqs := New(alloc, 8 * |d.calls|, base, Onto(below, edgeFreqs));
    }

    /** Gives the results back, last first. */
    method DropFrequencies(alloc: BumpPtrAllocator, ghost base: seq<Block>, ghost ptrs: seq<nat>) returns (outcome: Outcome)
      requires alloc.Valid() && Owns(alloc.blocks, base, On(ptrs))
      modifies this, alloc
      ensures outcome == Done && alloc.Valid() && Owns(alloc.blocks, base, On(ptrs)) && edgeFreqs == callFreqs == 0
    {
      ghost var below := AllOn(Onto(Onto(ptrs, cfgNodes), spanningTreeNodes), buffers);
      var ok := Delete(alloc, callFreqs, base, Onto(below, edgeFreqs));
      if !ok { return BadDeallocate; }
      ok := Delete(alloc, edgeFreqs, base, below);
      if !ok { return BadDeallocate; }
      edgeFreqs, callFreqs := 0, 0;
      outcome := Done;
    }

    /** The destructor: everything goes, in reverse order of allocation. */
    method Destroy(alloc: BumpPtrAllocator, ghost base: seq<Block>, ghost ptrs: seq<nat>) returns (ok: bool)
      requires alloc.Valid() && Owns(alloc.blocks, base, On(ptrs))
      modifies alloc
      ensures ok && alloc.Valid() && Owns(alloc.blocks, base, ptrs)
    {
      ghost var nodes := Onto(Onto(ptrs, cfgNodes), spanningTreeNodes);
      ok := Delete(alloc, callFreqs, base, Onto(AllOn(nodes, buffers), edgeFreqs));
      ok := Delete(alloc, edgeFreqs, base, AllOn(nodes, buffers));
      ok := DeleteAllBuffers(alloc, buffers, base, nodes);
      ok := Delete(alloc, spanningTreeNodes, base, Onto(ptrs, cfgNodes));
      ok := Delete(alloc, cfgNodes, base, ptrs);
    }
  }

  /** The life of the `Graph` object: its constructor, the use of its results, its destructor. */
  method UseGraph(alloc: BumpPtrAllocator, d: FunctionDescription, n: nat, ghost base: seq<Block>, ghost ptrs: seq<nat>)
    returns (outcome: Outcome)
    requires alloc.Valid() && Owns(alloc.blocks, base, ptrs) && Covers(d, n)
    modifies alloc, alloc.words
    ensures outcome != BadDeallocate
    ensures outcome == Done ==> alloc.Valid() && Owns(alloc.blocks, base, ptrs)
  {
    var graph := new GraphPointers();
    var ok, tree := graph.AllocateNodes(alloc, d, n, base, ptrs);
    if !ok { return OutOfMemory; }
    outcome := graph.ComputeFrequencies(alloc, d, n, tree, base, ptrs);
    if outcome != Done { return; }
    ok := graph.Destroy(alloc, base, ptrs);
    if !ok { return BadDeallocate; }
  }

  /**
   Writing the profile of one function, cold ones skipped: whatever the
   description, no deallocation is ever refused, and unless memory runs out the
   allocator ends where it started.
   */
  method WriteFunctionProfile(alloc: BumpPtrAllocator, d: FunctionDescription, n: nat, cold: bool) returns (outcome: Outcome)
    requires alloc.Valid() && Covers(d, n)
    modifies alloc, alloc.words
    ensures outcome != BadDeallocate
    ensures outcome == Done ==> alloc.Valid() && alloc.blocks == old(alloc.blocks) && alloc.top == old(alloc.top)
  {
    if cold { return Done; }
    ghost var base := alloc.blocks;
    var ok, g := New(alloc, SIZEOF_GRAPH, base, []);
    if !ok { return OutOfMemory; }
    outcome := UseGraph(alloc, d, n, base, Onto([], g));
    if outcome != Done { return; }
    ok := Delete(alloc, g, base, []);
    if !ok { return BadDeallocate; }
    assert alloc.blocks == base;
  }
}
