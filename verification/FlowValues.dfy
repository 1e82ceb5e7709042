/**
 What the frequency arrays hold while the walk is under way: final values for
 everything below a finished node, zero for everything still to come.
 */
module FlowValues {
  import opened FlowSpec
  import opened FlowWalk
  import opened Words
  import opened Sequences

  // ---------- One node, read off the current edge frequencies ----------

  function BlockFrom(d: FunctionDescription, counters: seq<nat>, freqs: seq<nat>, v: nat): int
    requires CountersExist(d, counters) && |freqs| == |d.edges|
  {
    var leaf := ToInt64(Leaf(d, counters, v));
    if leaf != 0 then leaf else ToInt64(OutFlow(d, freqs, v, |d.edges|))
  }

  function NodeFrom(d: FunctionDescription, counters: seq<nat>, freqs: seq<nat>, v: nat): int
    requires CountersExist(d, counters) && |freqs| == |d.edges|
  {
    var block := ClampToZero(BlockFrom(d, counters, freqs, v));
    var calls := MaxCallCounter(d, counters, v, |d.calls|);
    ToInt64(if calls > block then calls else block)
  }

  function ParentFrom(d: FunctionDescription, counters: seq<nat>, freqs: seq<nat>, v: nat): nat
    requires CountersExist(d, counters) && |freqs| == |d.edges|
  {
    ClampToZero(ToInt64(NodeFrom(d, counters, freqs, v) - InFlow(d, freqs, v, |d.edges|)))
  }

  // ---------- Edge frequencies ----------

  ghost predicate EdgesInv(d: FunctionDescription, n: nat, counters: seq<nat>, h: seq<nat>, freqs: seq<nat>, marks: seq<Status>) {
    && CountersExist(d, counters) && Heights(d, n, h) && |freqs| == |d.edges| && |marks| == n
    && (forall e :: 0 <= e < |d.edges| && d.edges[e].counter != NO_COUNTER ==> freqs[e] == counters[d.edges[e].counter])
    && (forall e :: TreeEdge(d, e) ==>
          freqs[e] == if marks[d.edges[e].toNode] == Visited then TreeEdgeFrequency(d, n, counters, h, e) else 0)
  }

  lemma {:induction false} OutFlowIsResolved(d: FunctionDescription, n: nat, counters: seq<nat>, h: seq<nat>, freqs: seq<nat>, marks: seq<Status>, v: nat, i: nat)
    requires EdgesInv(d, n, counters, h, freqs, marks) && v < n && i <= |d.edges|
    requires forall e :: TreeEdge(d, e) && d.edges[e].fromNode == v ==> marks[d.edges[e].toNode] == Visited
    ensures OutFlow(d, freqs, v, i) == ResolvedOutFlow(d, n, counters, h, v, i)
  {
    if i > 0 {
      OutFlowIsResolved(d, n, counters, h, freqs, marks, v, i - 1);
      if d.edges[i - 1].fromNode == v && d.edges[i - 1].counter == NO_COUNTER {
        assert TreeEdge(d, i - 1);
      }
    }
  }

  /** The in-edges of an unfinished node hold their counters, and zero on the tree edge. */
  lemma {:induction false} InFlowIsCounted(d: FunctionDescription, n: nat, counters: seq<nat>, h: seq<nat>, freqs: seq<nat>, marks: seq<Status>, v: nat, i: nat)
    requires EdgesInv(d, n, counters, h, freqs, marks) && v < n && i <= |d.edges| && marks[v] != Visited
    ensures InFlow(d, freqs, v, i) == CountedInFlow(d, counters, v, i)
  {
    if i > 0 {
      InFlowIsCounted(d, n, counters, h, freqs, marks, v, i - 1);
      if d.edges[i - 1].toNode == v && d.edges[i - 1].counter == NO_COUNTER {
        assert TreeEdge(d, i - 1);
      }
    }
  }

  /** A node whose tree children are finished gets its final frequencies. */
  lemma NodeIsFinal(d: FunctionDescription, n: nat, counters: seq<nat>, h: seq<nat>, freqs: seq<nat>, marks: seq<Status>, v: nat)
    requires EdgesInv(d, n, counters, h, freqs, marks) && v < n && marks[v] != Visited
    requires forall e :: TreeEdge(d, e) && d.edges[e].fromNode == v ==> marks[d.edges[e].toNode] == Visited
    ensures BlockFrom(d, counters, freqs, v) == BlockFrequency(d, n, counters, h, v)
    ensures NodeFrom(d, counters, freqs, v) == NodeFrequency(d, n, counters, h, v)
    ensures ParentFrom(d, counters, freqs, v) == ClampToZero(ParentFrequency(d, n, counters, h, v))
  {
    OutFlowIsResolved(d, n, counters, h, freqs, marks, v, |d.edges|);
    InFlowIsCounted(d, n, counters, h, freqs, marks, v, |d.edges|);
  }

  /** Finishing a root keeps the edge frequencies right; finishing another node needs its parent edge set. */
  lemma FinishKeepsEdges(d: FunctionDescription, n: nat, counters: seq<nat>, h: seq<nat>, freqs: seq<nat>, marks: seq<Status>, v: nat)
    requires EdgesInv(d, n, counters, h, freqs, marks) && v < n && marks[v] != Visited && Forest(d)
    requires forall e :: TreeEdge(d, e) && d.edges[e].fromNode == v ==> marks[d.edges[e].toNode] == Visited
    ensures Root(d, v) ==> EdgesInv(d, n, counters, h, freqs, marks[v := Visited])
    ensures forall p :: TreeEdge(d, p) && d.edges[p].toNode == v ==>
              EdgesInv(d, n, counters, h, freqs[p := ParentFrom(d, counters, freqs, v)], marks[v := Visited])
  {
    NodeIsFinal(d, n, counters, h, freqs, marks, v);
  }

  // ---------- Calls in a node ----------

  /** The numbers of those of the first `i` calls that are made in `v`. */
  function CallsIn(d: FunctionDescription, v: nat, i: nat): seq<nat>
    requires i <= |d.calls|
  {
    if i == 0 then []
    else
      var rest := CallsIn(d, v, i - 1);
      if d.calls[i - 1].fromNode == v then rest + [i - 1] else rest
  }

  ghost predicate ListsCalls(d: FunctionDescription, cs: seq<nat>, v: nat, i: nat)
    requires i <= |d.calls|
  {
    && (forall k :: 0 <= k < |cs| ==> cs[k] < i && d.calls[cs[k]].fromNode == v)
    && (forall j, k :: 0 <= j < k < |cs| ==> cs[j] < cs[k])
    && (forall c :: 0 <= c < i && d.calls[c].fromNode == v ==> exists k :: 0 <= k < |cs| && cs[k] == c)
  }

  lemma ListsMoreCalls(d: FunctionDescription, cs: seq<nat>, v: nat, i: nat)
    requires 0 < i <= |d.calls| && ListsCalls(d, cs, v, i - 1)
    ensures d.calls[i - 1].fromNode == v ==> ListsCalls(d, cs + [i - 1], v, i)
    ensures d.calls[i - 1].fromNode != v ==> ListsCalls(d, cs, v, i)
  {
    if d.calls[i - 1].fromNode == v {
      var cs' := cs + [i - 1];
      forall c | 0 <= c < i && d.calls[c].fromNode == v ensures exists k :: 0 <= k < |cs'| && cs'[k] == c {
        if c == i - 1 {
          assert cs'[|cs|] == c;
        } else {
          var k :| 0 <= k < |cs| && cs[k] == c;
          assert cs'[k] == c;
        }
      }
    }
  }

  lemma {:induction false} CallsAreListed(d: FunctionDescription, v: nat, i: nat)
    requires i <= |d.calls|
    ensures ListsCalls(d, CallsIn(d, v, i), v, i)
  {
    if i > 0 {
      CallsAreListed(d, v, i - 1);
      ListsMoreCalls(d, CallsIn(d, v, i - 1), v, i);
    }
  }

  /** Each call made in `v` is listed once. */
  lemma CallsAreListedOnce(d: FunctionDescription, v: nat)
    ensures var cs := CallsIn(d, v, |d.calls|);
            && (forall k :: 0 <= k < |cs| ==> cs[k] < |d.calls| && d.calls[cs[k]].fromNode == v)
            && (forall k :: 0 <= k < |cs| ==> cs[k] !in cs[..k])
  {
    CallsAreListed(d, v, |d.calls|);
  }

  ghost predicate AllBelow(cs: seq<nat>, m: nat) { forall k :: 0 <= k < |cs| ==> cs[k] < m }

  /** The largest private counter among the calls listed in `cs`. */
  ghost function MaxOver(d: FunctionDescription, counters: seq<nat>, cs: seq<nat>): nat
    requires CountersExist(d, counters) && AllBelow(cs, |d.calls|)
  {
    if cs == [] then 0
    else
      var rest := MaxOver(d, counters, cs[..|cs| - 1]);
      var c := d.calls[cs[|cs| - 1]];
      if c.counter != NO_COUNTER && counters[c.counter] > rest then counters[c.counter] else rest
  }

  lemma MaxOverAppend(d: FunctionDescription, counters: seq<nat>, cs: seq<nat>, c: nat)
    requires CountersExist(d, counters) && AllBelow(cs, |d.calls|) && c < |d.calls|
    ensures var rest := MaxOver(d, counters, cs);
            MaxOver(d, counters, cs + [c]) ==
              if d.calls[c].counter != NO_COUNTER && counters[d.calls[c].counter] > rest then counters[d.calls[c].counter] else rest
  {
    assert (cs + [c])[..|cs|] == cs;
  }

  lemma {:induction false} CallsAreBelow(d: FunctionDescription, v: nat, i: nat)
    requires i <= |d.calls|
    ensures AllBelow(CallsIn(d, v, i), |d.calls|)
  {
    CallsAreListed(d, v, i);
  }

  lemma {:induction false} MaxOverCalls(d: FunctionDescription, counters: seq<nat>, v: nat, i: nat)
    requires CountersExist(d, counters) && i <= |d.calls|
    ensures AllBelow(CallsIn(d, v, i), |d.calls|)
    ensures MaxOver(d, counters, CallsIn(d, v, i)) == MaxCallCounter(d, counters, v, i)
  {
    CallsAreBelow(d, v, i);
    if i > 0 {
      MaxOverCalls(d, counters, v, i - 1);
      if d.calls[i - 1].fromNode == v {
        MaxOverAppend(d, counters, CallsIn(d, v, i - 1), i - 1);
      }
    }
  }

  ghost predicate CallsInv(d: FunctionDescription, n: nat, counters: seq<nat>, h: seq<nat>, calls: seq<nat>, marks: seq<Status>) {
    && CountersExist(d, counters) && Heights(d, n, h) && |calls| == |d.calls| && |marks| == n
    && forall c :: 0 <= c < |d.calls| ==>
         calls[c] == if marks[d.calls[c].fromNode] == Visited then CallFrequency(d, n, counters, h, c) else 0
  }

  /** The frequency a call in a node with block frequency `freq` is given. */
  function CallValue(d: FunctionDescription, counters: seq<nat>, freq: nat, c: nat): nat
    requires CountersExist(d, counters) && c < |d.calls|
  {
    if d.calls[c].counter == NO_COUNTER then freq else counters[d.calls[c].counter]
  }

  /** `calls'` is `calls` with the calls made in `v` set, and nothing else. */
  ghost predicate SetsCallsIn(d: FunctionDescription, counters: seq<nat>, calls: seq<nat>, calls': seq<nat>, v: nat, freq: nat) {
    && CountersExist(d, counters) && |calls| == |calls'| == |d.calls|
    && forall c :: 0 <= c < |d.calls| ==>
         calls'[c] == if d.calls[c].fromNode == v then CallValue(d, counters, freq, c) else calls[c]
  }

  // ---------- Totals per call target ----------

  /** Total over the first `i` calls that have target `t`. */
  function TargetTally(d: FunctionDescription, calls: seq<nat>, t: nat, i: nat): int
    requires i <= |d.calls| == |calls|
  {
    if i == 0 then 0
    else TargetTally(d, calls, t, i - 1) + if d.calls[i - 1].target == t then calls[i - 1] else 0
  }

  lemma {:induction false} TallyUpdate(d: FunctionDescription, calls: seq<nat>, c: nat, x: nat, t: nat, i: nat)
    requires i <= |d.calls| == |calls| && c < |calls|
    ensures TargetTally(d, calls[c := x], t, i) ==
              TargetTally(d, calls, t, i) + if c < i && d.calls[c].target == t then x - calls[c] else 0
  {
    if i > 0 { TallyUpdate(d, calls, c, x, t, i - 1); }
  }

  lemma {:induction false} TallyOfZeros(d: FunctionDescription, calls: seq<nat>, t: nat, i: nat)
    requires i <= |d.calls| == |calls| && forall c :: 0 <= c < |calls| ==> calls[c] == 0
    ensures TargetTally(d, calls, t, i) == 0
  {
    if i > 0 { TallyOfZeros(d, calls, t, i - 1); }
  }

  function Get(m: map<nat, nat>, t: nat): nat { if t in m then m[t] else 0 }

  ghost predicate Fits64(m: map<nat, nat>) { forall t :: t in m ==> m[t] < TWO64 }

  /** As call frequencies went from `calls` to `calls'`, the totals went from `m` to `m'` by the same amounts. */
  ghost predicate TotalsFollow(d: FunctionDescription, m: map<nat, nat>, m': map<nat, nat>, calls: seq<nat>, calls': seq<nat>)
    requires |calls| == |calls'| == |d.calls|
  {
    forall t :: Get(m', t) ==
      Wrap64(Get(m, t) + (TargetTally(d, calls', t, |d.calls|) - TargetTally(d, calls, t, |d.calls|)))
  }

  lemma TotalsFollowOn(d: FunctionDescription, m: map<nat, nat>, m': map<nat, nat>, m'': map<nat, nat>,
                       calls: seq<nat>, calls': seq<nat>, calls'': seq<nat>)
    requires |calls| == |calls'| == |calls''| == |d.calls|
    requires TotalsFollow(d, m, m', calls, calls') && TotalsFollow(d, m', m'', calls', calls'')
    ensures TotalsFollow(d, m, m'', calls, calls'')
  {
    var k := |d.calls|;
    forall t
      ensures Get(m'', t) == Wrap64(Get(m, t) + (TargetTally(d, calls'', t, k) - TargetTally(d, calls, t, k)))
    {
      WrapAdds(Get(m, t) + (TargetTally(d, calls', t, k) - TargetTally(d, calls, t, k)),
                          TargetTally(d, calls'', t, k) - TargetTally(d, calls', t, k));
    }
  }

  /** The call frequencies after the calls listed in `cs` have been set, one after the other. */
  ghost function AfterCalls(d: FunctionDescription, counters: seq<nat>, calls: seq<nat>, cs: seq<nat>, freq: nat): (r: seq<nat>)
    requires CountersExist(d, counters) && |calls| == |d.calls| && AllBelow(cs, |d.calls|)
    ensures |r| == |calls|
  {
    if cs == [] then calls
    else
      var c := cs[|cs| - 1];
      AfterCalls(d, counters, calls, cs[..|cs| - 1], freq)[c := CallValue(d, counters, freq, c)]
  }

  lemma {:induction false} AfterCallsAt(d: FunctionDescription, counters: seq<nat>, calls: seq<nat>, cs: seq<nat>, freq: nat, c: nat)
    requires CountersExist(d, counters) && |calls| == |d.calls| && AllBelow(cs, |d.calls|)
    requires c < |calls|
    ensures AfterCalls(d, counters, calls, cs, freq)[c] == if c in cs then CallValue(d, counters, freq, c) else calls[c]
  {
    if cs != [] {
      AfterCallsAt(d, counters, calls, cs[..|cs| - 1], freq, c);
      assert cs == cs[..|cs| - 1] + [cs[|cs| - 1]];
    }
  }

  lemma AfterCallsIn(d: FunctionDescription, counters: seq<nat>, calls: seq<nat>, v: nat, freq: nat)
    requires CountersExist(d, counters) && |calls| == |d.calls|
    ensures AllBelow(CallsIn(d, v, |d.calls|), |d.calls|)
    ensures SetsCallsIn(d, counters, calls, AfterCalls(d, counters, calls, CallsIn(d, v, |d.calls|), freq), v, freq)
  {
    CallsAreListed(d, v, |d.calls|);
    var cs := CallsIn(d, v, |d.calls|);
    forall c | 0 <= c < |d.calls|
      ensures AfterCalls(d, counters, calls, cs, freq)[c] ==
                if d.calls[c].fromNode == v then CallValue(d, counters, freq, c) else calls[c]
    {
      AfterCallsAt(d, counters, calls, cs, freq, c);
    }
  }

  // ---------- Entry points ----------

  ghost predicate DistinctEntries(d: FunctionDescription, n: nat) {
    forall v, w :: 0 <= v < n && 0 <= w < n && EntryOf(d, v) == EntryOf(d, w) != 0 ==> v == w
  }

  function EntryOf(d: FunctionDescription, v: nat): nat { EntryAddress(d, v, |d.entryNodes|) }

  /** Node `v` is an entry point at `a`, and ran. */
  ghost predicate RanAt(d: FunctionDescription, n: nat, counters: seq<nat>, h: seq<nat>, v: int, a: nat)
    requires CountersExist(d, counters) && Heights(d, n, h)
  {
    0 <= v < n && EntryOf(d, v) == a != 0 && NodeFrequency(d, n, counters, h, v) > 0
  }

  /** The call flow table holds the frequency of every finished entry node that ran; what it `was` elsewhere it still is. */
  ghost predicate EntriesInv(d: FunctionDescription, n: nat, counters: seq<nat>, h: seq<nat>,
                             was: map<nat, nat>, vals: map<nat, nat>, marks: seq<Status>) {
    && CountersExist(d, counters) && Heights(d, n, h) && |marks| == n
    && (forall v, a :: RanAt(d, n, counters, h, v, a) && marks[v] == Visited ==> Get(vals, a) == NodeFrequency(d, n, counters, h, v))
    && (forall a :: Get(vals, a) == Get(was, a) || exists v :: RanAt(d, n, counters, h, v, a) && marks[v] == Visited)
  }

  lemma FinishKeepsCalls(d: FunctionDescription, n: nat, counters: seq<nat>, h: seq<nat>,
                         calls: seq<nat>, calls': seq<nat>, marks: seq<Status>, v: nat)
    requires CallsInv(d, n, counters, h, calls, marks) && v < n
    requires SetsCallsIn(d, counters, calls, calls', v, ClampToZero(BlockFrequency(d, n, counters, h, v)))
    ensures CallsInv(d, n, counters, h, calls', marks[v := Visited])
  {
  }

  lemma FinishKeepsEntries(d: FunctionDescription, n: nat, counters: seq<nat>, h: seq<nat>,
                           was: map<nat, nat>, vals: map<nat, nat>, vals': map<nat, nat>, marks: seq<Status>, v: nat)
    requires EntriesInv(d, n, counters, h, was, vals, marks) && DistinctEntries(d, n) && v < n
    requires var freq := NodeFrequency(d, n, counters, h, v);
             vals' == if freq > 0 && EntryOf(d, v) != 0 then vals[EntryOf(d, v) := freq] else vals
    ensures EntriesInv(d, n, counters, h, was, vals', marks[v := Visited])
  {
  }

  /** Iterations the walk still has to make before every node is finished: two for each new node, one for each open one. */
  function Work(marks: seq<Status>): nat {
    if marks == [] then 0
    else Work(marks[..|marks| - 1]) +
         match marks[|marks| - 1] case New => 2 case Visiting => 1 case Visited => 0
  }

  lemma {:induction false} WorkDrops(marks: seq<Status>, v: nat, m: Status)
    requires v < |marks|
    requires (marks[v] == New && m == Visiting) || (marks[v] == Visiting && m == Visited)
    ensures Work(marks[v := m]) == Work(marks) - 1
  {
    if v < |marks| - 1 {
      WorkDrops(marks[..|marks| - 1], v, m);
      assert marks[v := m][..|marks| - 1] == marks[..|marks| - 1][v := m];
    } else {
      assert marks[v := m][..|marks| - 1] == marks[..|marks| - 1];
    }
  }

  // ---------- Everything the walk keeps ----------

  ghost predicate WalkState(d: FunctionDescription, n: nat, counters: seq<nat>, h: seq<nat>, s: seq<nat>, marks: seq<Status>,
                            order: seq<nat>, freqs: seq<nat>, calls: seq<nat>, was: map<nat, nat>, vals: map<nat, nat>)
  {
    && CountersExist(d, counters) && Shape(d, n, s, marks) && |freqs| == |d.edges| && |calls| == |d.calls|
    && (forall c :: 0 <= c < |d.calls| && marks[d.calls[c].fromNode] != Visited ==> calls[c] == 0)
    && (Forest(d) ==> WalkInv(d, n, s, marks, order))
    && (Forest(d) && Heights(d, n, h) ==>
          EdgesInv(d, n, counters, h, freqs, marks) && CallsInv(d, n, counters, h, calls, marks))
    && (Forest(d) && Heights(d, n, h) && DistinctEntries(d, n) ==> EntriesInv(d, n, counters, h, was, vals, marks))
  }

  lemma StateStarts(d: FunctionDescription, n: nat, counters: seq<nat>, h: seq<nat>, s: seq<nat>, marks: seq<Status>,
                    freqs: seq<nat>, calls: seq<nat>, vals: map<nat, nat>)
    requires CountersExist(d, counters) && Shape(d, n, s, marks) && Distinct(s)
    requires forall v :: 0 <= v < n ==> marks[v] == New
    requires forall v :: 0 <= v < n ==> (v in s <==> Root(d, v))
    requires |freqs| == |d.edges| && forall e :: 0 <= e < |d.edges| ==>
               freqs[e] == if d.edges[e].counter == NO_COUNTER then 0 else counters[d.edges[e].counter]
    requires |calls| == |d.calls| && forall c :: 0 <= c < |d.calls| ==> calls[c] == 0
    ensures WalkState(d, n, counters, h, s, marks, [], freqs, calls, vals, vals)
  {
    WalkStarts(d, n, s, marks);
  }

  lemma StateAfterPush(d: FunctionDescription, n: nat, counters: seq<nat>, h: seq<nat>, s: seq<nat>, marks: seq<Status>,
                       order: seq<nat>, freqs: seq<nat>, calls: seq<nat>, was: map<nat, nat>, vals: map<nat, nat>)
    requires WalkState(d, n, counters, h, s, marks, order, freqs, calls, was, vals)
    requires |s| > 0 && marks[s[|s| - 1]] == New
    ensures Forest(d) ==> |s + Children(d, s[|s| - 1])| <= n
    ensures WalkState(d, n, counters, h, s + Children(d, s[|s| - 1]), marks[s[|s| - 1] := Visiting], order, freqs, calls, was, vals)
  {
    var cur := s[|s| - 1];
    if Forest(d) { PushStep(d, n, s, marks, order); }
    ChildrenAreTreeTargets(d, cur);
    var s' := s + Children(d, cur);
    forall k | 0 <= k < |s'| ensures s'[k] < n {
      if k >= |s| {
        assert s'[k] in Children(d, cur);
        assert TreeChild(d, cur, s'[k]);
      }
    }
  }

  lemma StateAfterFinish(d: FunctionDescription, n: nat, counters: seq<nat>, h: seq<nat>, s: seq<nat>, marks: seq<Status>,
                         order: seq<nat>, freqs: seq<nat>, calls: seq<nat>, was: map<nat, nat>, vals: map<nat, nat>,
                         freqs': seq<nat>, calls': seq<nat>, vals': map<nat, nat>)
    requires WalkState(d, n, counters, h, s, marks, order, freqs, calls, was, vals)
    requires |s| > 0 && marks[s[|s| - 1]] == Visiting && |freqs'| == |d.edges| && |calls'| == |d.calls|
    requires forall c :: 0 <= c < |d.calls| && d.calls[c].fromNode != s[|s| - 1] ==> calls'[c] == calls[c]
    requires var marks' := marks[s[|s| - 1] := Visited];
             && (Forest(d) && Heights(d, n, h) ==>
                   EdgesInv(d, n, counters, h, freqs', marks') && CallsInv(d, n, counters, h, calls', marks'))
             && (Forest(d) && Heights(d, n, h) && DistinctEntries(d, n) ==> EntriesInv(d, n, counters, h, was, vals', marks'))
    ensures var cur := s[|s| - 1];
            WalkState(d, n, counters, h, s[..|s| - 1], marks[cur := Visited], order + [cur], freqs', calls', was, vals')
  {
    if Forest(d) { FinishStep(d, n, s, marks, order); }
  }

  // ---------- What the walk leaves ----------

  /** The roots and everything below them, and nothing else, finished once each, every node after its tree children. */
  ghost predicate FinishedAll(d: FunctionDescription, n: nat, order: seq<nat>) {
    && Distinct(order)
    && (forall i :: 0 <= i < |order| ==> order[i] < n)
    && (forall v :: 0 <= v < n && Root(d, v) ==> v in order)
    && (forall e :: TreeEdge(d, e) ==> (d.edges[e].fromNode in order <==> d.edges[e].toNode in order))
    && (forall e, j :: TreeEdge(d, e) && 0 <= j < |order| && order[j] == d.edges[e].fromNode ==>
          d.edges[e].toNode in order[..j])
  }

  /** Every edge, call and entry point has the frequency the specification gives it. */
  ghost predicate FrequenciesAreFinal(d: FunctionDescription, n: nat, counters: seq<nat>, h: seq<nat>,
                                      freqs: seq<nat>, calls: seq<nat>, was: map<nat, nat>, vals: map<nat, nat>)
    requires Heights(d, n, h) && CountersExist(d, counters)
  {
    && |freqs| == |d.edges| && |calls| == |d.calls|
    && (forall e :: 0 <= e < |d.edges| ==> freqs[e] == EdgeFrequency(d, n, counters, h, e))
    && (forall c :: 0 <= c < |d.calls| ==> calls[c] == CallFrequency(d, n, counters, h, c))
    && (DistinctEntries(d, n) ==> EntriesFinal(d, n, counters, h, was, vals))
  }

  ghost predicate EntriesFinal(d: FunctionDescription, n: nat, counters: seq<nat>, h: seq<nat>, was: map<nat, nat>, vals: map<nat, nat>)
    requires Heights(d, n, h) && CountersExist(d, counters)
  {
    && (forall v, a :: RanAt(d, n, counters, h, v, a) ==> Get(vals, a) == NodeFrequency(d, n, counters, h, v))
    && (forall a :: Get(vals, a) == Get(was, a) || exists v :: RanAt(d, n, counters, h, v, a))
  }

  lemma StateEnds(d: FunctionDescription, n: nat, counters: seq<nat>, h: seq<nat>, marks: seq<Status>,
                  order: seq<nat>, freqs: seq<nat>, calls: seq<nat>, was: map<nat, nat>, vals: map<nat, nat>)
    requires WalkState(d, n, counters, h, [], marks, order, freqs, calls, was, vals) && Forest(d)
    ensures FinishedAll(d, n, order)
    ensures Heights(d, n, h) ==> FrequenciesAreFinal(d, n, counters, h, freqs, calls, was, vals)
  {
    WalkEnds(d, n, marks, order);
    if Heights(d, n, h) {
      forall v | 0 <= v < n ensures marks[v] == Visited {
        AllFinished(d, n, h, order, v);
      }
      forall e | 0 <= e < |d.edges| ensures freqs[e] == EdgeFrequency(d, n, counters, h, e) {
        assert d.edges[e].counter == NO_COUNTER ==> TreeEdge(d, e);
      }
    }
  }

  /** Each call's frequency is in its target's total exactly once. */
  ghost predicate TotalsInclude(d: FunctionDescription, m: map<nat, nat>, m': map<nat, nat>, calls: seq<nat>)
    requires |calls| == |d.calls|
  {
    forall t :: Get(m', t) == Wrap64(Get(m, t) + TargetTally(d, calls, t, |d.calls|))
  }

  lemma TotalsFromZero(d: FunctionDescription, m: map<nat, nat>, m': map<nat, nat>, zeros: seq<nat>, calls: seq<nat>)
    requires |zeros| == |calls| == |d.calls| && forall c :: 0 <= c < |zeros| ==> zeros[c] == 0
    requires TotalsFollow(d, m, m', zeros, calls)
    ensures TotalsInclude(d, m, m', calls)
  {
    forall t ensures TargetTally(d, zeros, t, |d.calls|) == 0 { TallyOfZeros(d, zeros, t, |d.calls|); }
  }

  lemma TotalsStay(d: FunctionDescription, m: map<nat, nat>, calls: seq<nat>)
    requires |calls| == |d.calls| && Fits64(m)
    ensures TotalsFollow(d, m, m, calls, calls)
  {
  }

  /** The entry records, by what the lookup finds for their nodes. */
  lemma EntryIsFound(d: FunctionDescription, k: int)
    requires LastEntry(d, k, |d.entryNodes|)
    ensures EntryOf(d, d.entryNodes[k].node) == d.entryNodes[k].address
  {
    EntryIsLastRecord(d, d.entryNodes[k].node, |d.entryNodes|);
  }

  lemma RanIsRecorded(d: FunctionDescription, n: nat, counters: seq<nat>, h: seq<nat>, v: int, a: nat) returns (k: int)
    requires CountersExist(d, counters) && Heights(d, n, h) && RanAt(d, n, counters, h, v, a)
    ensures LastEntry(d, k, |d.entryNodes|) && d.entryNodes[k].node == v && d.entryNodes[k].address == a
  {
    EntryIsLastRecord(d, v, |d.entryNodes|);
    k :| LastEntry(d, k, |d.entryNodes|) && d.entryNodes[k].node == v && d.entryNodes[k].address == a;
  }

  lemma EntryIsRecovered(d: FunctionDescription, n: nat, counters: seq<nat>, h: seq<nat>, was: map<nat, nat>, vals: map<nat, nat>, k: int)
    requires CountersExist(d, counters) && Heights(d, n, h) && EntriesFinal(d, n, counters, h, was, vals) && DistinctEntries(d, n)
    requires LastEntry(d, k, |d.entryNodes|) && d.entryNodes[k].node < n && d.entryNodes[k].address != 0
    ensures var v, a := d.entryNodes[k].node, d.entryNodes[k].address;
            Get(vals, a) == if NodeFrequency(d, n, counters, h, v) > 0 then NodeFrequency(d, n, counters, h, v) else Get(was, a)
  {
    EntryIsFound(d, k);
    var v, a := d.entryNodes[k].node, d.entryNodes[k].address;
    if NodeFrequency(d, n, counters, h, v) > 0 {
      assert RanAt(d, n, counters, h, v, a);
    }
  }

  /**
   On a real execution the arrays end up holding its frequencies, and each
   entry address its node's: `flow` on the edges, `freq` on the calls without
   counters and at the entry points.
   */
  lemma RealFlowIsRecovered(d: FunctionDescription, n: nat, counters: seq<nat>, h: seq<nat>, flow: seq<nat>, freq: seq<nat>,
                            freqs: seq<nat>, calls: seq<nat>, was: map<nat, nat>, vals: map<nat, nat>)
    requires FlowOf(d, n, counters, flow, freq) && Heights(d, n, h) && Forest(d)
    requires FrequenciesAreFinal(d, n, counters, h, freqs, calls, was, vals)
    ensures freqs == flow
    ensures forall c :: 0 <= c < |d.calls| ==>
              calls[c] == (if d.calls[c].counter == NO_COUNTER then freq[d.calls[c].fromNode] else counters[d.calls[c].counter])
              && calls[c] <= freq[d.calls[c].fromNode]
    ensures DistinctEntries(d, n) ==>
              forall k :: LastEntry(d, k, |d.entryNodes|) && d.entryNodes[k].node < n && d.entryNodes[k].address != 0 ==>
                Get(vals, d.entryNodes[k].address) ==
                  if freq[d.entryNodes[k].node] > 0 then freq[d.entryNodes[k].node] else Get(was, d.entryNodes[k].address)
    ensures DistinctEntries(d, n) ==>
              forall a :: Get(vals, a) == Get(was, a) || exists k :: LastEntry(d, k, |d.entryNodes|) && d.entryNodes[k].address == a
  {
    ReconstructionIsExact(d, n, counters, h, flow, freq);
    assert forall e :: 0 <= e < |d.edges| ==> freqs[e] == EdgeFrequency(d, n, counters, h, e);
    if DistinctEntries(d, n) {
      forall k | LastEntry(d, k, |d.entryNodes|) && d.entryNodes[k].node < n && d.entryNodes[k].address != 0
        ensures Get(vals, d.entryNodes[k].address) ==
                  if freq[d.entryNodes[k].node] > 0 then freq[d.entryNodes[k].node] else Get(was, d.entryNodes[k].address)
      {
        EntryIsRecovered(d, n, counters, h, was, vals, k);
      }
      forall a | Get(vals, a) != Get(was, a) ensures exists k :: LastEntry(d, k, |d.entryNodes|) && d.entryNodes[k].address == a {
        var v :| RanAt(d, n, counters, h, v, a);
        var k := RanIsRecorded(d, n, counters, h, v, a);
      }
    }
  }
}
