/**
 The explicit-stack walk over the spanning forest, on values: what holds of the
 stack, the marks and the order of finishing between any two iterations.
 */
module FlowWalk {
  import opened FlowSpec
  import opened Sequences

  datatype Status = New | Visiting | Visited

  /** `v` is on the stack above position `j`. */
  ghost predicate Above(s: seq<nat>, j: int, v: nat) {
    exists k :: 0 <= k < |s| && j < k && s[k] == v
  }

  ghost predicate Shape(d: FunctionDescription, n: nat, s: seq<nat>, marks: seq<Status>) {
    && Covers(d, n) && |marks| == n
    && forall k :: 0 <= k < |s| ==> s[k] < n
  }

  /** `order` lists the finished nodes once each, every one after all its tree children. */
  ghost predicate FinishOrder(d: FunctionDescription, n: nat, marks: seq<Status>, order: seq<nat>)
    requires Covers(d, n) && |marks| == n
  {
    && Distinct(order)
    && (forall i :: 0 <= i < |order| ==> order[i] < n && marks[order[i]] == Visited)
    && (forall v :: 0 <= v < n && marks[v] == Visited ==> v in order)
    && (forall e, j :: TreeEdge(d, e) && 0 <= j < |order| && order[j] == d.edges[e].fromNode ==>
          d.edges[e].toNode in order[..j])
  }

  /** Marks against the stack: finished nodes are off it, nodes being visited and unvisited roots are on it. */
  ghost predicate MarksInv(d: FunctionDescription, n: nat, s: seq<nat>, marks: seq<Status>)
    requires Shape(d, n, s, marks)
  {
    && (forall v :: 0 <= v < n && marks[v] == Visited ==> v !in s)
    && (forall v :: 0 <= v < n && marks[v] == Visiting ==> v in s)
    && (forall v :: 0 <= v < n && Root(d, v) && marks[v] == New ==> v in s)
  }

  /** The tree children of a finished node are finished; those of a node being visited are finished or above it. */
  ghost predicate ChildrenInv(d: FunctionDescription, n: nat, s: seq<nat>, marks: seq<Status>)
    requires Shape(d, n, s, marks)
  {
    && (forall e :: TreeEdge(d, e) && marks[d.edges[e].fromNode] == Visited ==> marks[d.edges[e].toNode] == Visited)
    && (forall e, j :: TreeEdge(d, e) && 0 <= j < |s| && s[j] == d.edges[e].fromNode && marks[s[j]] == Visiting ==>
          marks[d.edges[e].toNode] == Visited || Above(s, j, d.edges[e].toNode))
  }

  /** Nothing below an unvisited node has been touched. */
  ghost predicate UntouchedInv(d: FunctionDescription, n: nat, s: seq<nat>, marks: seq<Status>)
    requires Shape(d, n, s, marks)
  {
    forall e :: TreeEdge(d, e) && marks[d.edges[e].fromNode] == New ==>
      marks[d.edges[e].toNode] == New && d.edges[e].toNode !in s
  }

  ghost predicate WalkInv(d: FunctionDescription, n: nat, s: seq<nat>, marks: seq<Status>, order: seq<nat>) {
    && Shape(d, n, s, marks)
    && Distinct(s)
    && MarksInv(d, n, s, marks)
    && ChildrenInv(d, n, s, marks)
    && UntouchedInv(d, n, s, marks)
    && FinishOrder(d, n, marks, order)
  }

  ghost predicate TreeChild(d: FunctionDescription, v: nat, w: nat) {
    exists e :: TreeEdge(d, e) && d.edges[e].fromNode == v && d.edges[e].toNode == w
  }

  /** The other ends of a list of edges. */
  function Targets(es: seq<Edge>): (r: seq<nat>)
    ensures |r| == |es| && forall k :: 0 <= k < |es| ==> r[k] == es[k].node
  {
    seq(|es|, k requires 0 <= k < |es| => es[k].node)
  }

  function Children(d: FunctionDescription, v: nat): seq<nat> {
    Targets(OutEdges(d, v, true, |d.edges|))
  }

  lemma ChildrenAreTreeTargets(d: FunctionDescription, v: nat)
    ensures forall w :: w in Children(d, v) <==> TreeChild(d, v, w)
    ensures Forest(d) ==> Distinct(Children(d, v))
  {
    var es := OutEdges(d, v, true, |d.edges|);
    var cs := Children(d, v);
    OutEdgesAreListed(d, v, true, |d.edges|);
    forall w ensures w in cs <==> TreeChild(d, v, w) {
      if w in cs {
        var k :| 0 <= k < |cs| && cs[k] == w;
        assert TreeEdge(d, es[k].id);
      }
      if TreeChild(d, v, w) {
        var e :| TreeEdge(d, e) && d.edges[e].fromNode == v && d.edges[e].toNode == w;
        assert Selected(d, true, e);
        var k :| 0 <= k < |es| && es[k].id == e;
        assert cs[k] == w;
      }
    }
    if Forest(d) { ChildrenAreDistinct(d, v); }
  }

  lemma ChildrenAreDistinct(d: FunctionDescription, v: nat)
    requires Forest(d)
    ensures Distinct(Children(d, v))
  {
    var es := OutEdges(d, v, true, |d.edges|);
    OutEdgesAreListed(d, v, true, |d.edges|);
    forall i, j | 0 <= i < j < |es| ensures Children(d, v)[i] != Children(d, v)[j] {
      assert TreeEdge(d, es[i].id) && TreeEdge(d, es[j].id) && es[i].id < es[j].id;
    }
  }

  /** A stack without repetitions is no longer than the number of nodes. */
  lemma {:induction false} DistinctIsShort(s: seq<nat>, n: nat)
    requires Distinct(s) && forall k :: 0 <= k < |s| ==> s[k] < n
    ensures |s| <= n
  {
    assert |s| > 0 ==> s[0] < n;
    if n > 0 {
      if i :| 0 <= i < |s| && s[i] == n - 1 {
        DistinctIsShort(s[..i] + s[i + 1..], n - 1);
      } else {
        DistinctIsShort(s, n - 1);
      }
    }
  }

  /** The walk starts with exactly the roots on the stack and nothing visited. */
  lemma WalkStarts(d: FunctionDescription, n: nat, s: seq<nat>, marks: seq<Status>)
    requires Shape(d, n, s, marks) && Distinct(s)
    requires forall v :: 0 <= v < n ==> marks[v] == New
    requires forall v :: 0 <= v < n ==> (v in s <==> Root(d, v))
    ensures WalkInv(d, n, s, marks, [])
  {
  }

  /** The tree children of an unvisited node are new, off the stack, and different from it. */
  lemma ChildrenAreFresh(d: FunctionDescription, n: nat, s: seq<nat>, marks: seq<Status>, order: seq<nat>)
    requires WalkInv(d, n, s, marks, order)
    requires |s| > 0 && marks[s[|s| - 1]] == New
    ensures forall w :: w in Children(d, s[|s| - 1]) ==> w < n && w !in s && marks[w] == New
  {
    var cur := s[|s| - 1];
    ChildrenAreTreeTargets(d, cur);
    forall w | w in Children(d, cur) ensures w < n && w !in s && marks[w] == New {
      assert TreeChild(d, cur, w);
      var e :| TreeEdge(d, e) && d.edges[e].fromNode == cur && d.edges[e].toNode == w;
    }
  }

  /** Popping a new node, marking it, and pushing it back with its tree children above it. */
  lemma PushStep(d: FunctionDescription, n: nat, s: seq<nat>, marks: seq<Status>, order: seq<nat>)
    requires Forest(d) && WalkInv(d, n, s, marks, order)
    requires |s| > 0 && marks[s[|s| - 1]] == New
    ensures var cur := s[|s| - 1];
            var s' := s + Children(d, cur);
            WalkInv(d, n, s', marks[cur := Visiting], order) && |s'| <= n
  {
    var cur := s[|s| - 1];
    var cs := Children(d, cur);
    var s', marks' := s + cs, marks[cur := Visiting];
    ChildrenAreFresh(d, n, s, marks, order);
    ChildrenAreTreeTargets(d, cur);
    PushKeepsDistinct(s, cs);
    assert forall v :: v in s' <==> v in s || v in cs;
    assert forall k :: 0 <= k < |s'| ==> s'[k] in s || s'[k] in cs;
    assert MarksInv(d, n, s', marks');
    PushKeepsChildren(d, n, s, marks, order);
    PushKeepsUntouched(d, n, s, marks, order);
    assert FinishOrder(d, n, marks', order);
    DistinctIsShort(s', n);
  }

  lemma PushKeepsDistinct(s: seq<nat>, t: seq<nat>)
    requires Distinct(s) && Distinct(t) && forall w :: w in t ==> w !in s
    ensures Distinct(s + t)
  {
    var u := s + t;
    forall i, j | 0 <= i < j < |u| ensures u[i] != u[j] {
      if i < |s| <= j { assert t[j - |s|] in t; }
    }
  }

  lemma PushKeepsUntouched(d: FunctionDescription, n: nat, s: seq<nat>, marks: seq<Status>, order: seq<nat>)
    requires Forest(d) && WalkInv(d, n, s, marks, order)
    requires |s| > 0 && marks[s[|s| - 1]] == New
    requires Shape(d, n, s + Children(d, s[|s| - 1]), marks)
    ensures UntouchedInv(d, n, s + Children(d, s[|s| - 1]), marks[s[|s| - 1] := Visiting])
  {
    var cur := s[|s| - 1];
    var cs := Children(d, cur);
    ChildrenAreTreeTargets(d, cur);
    forall e | TreeEdge(d, e) && marks[cur := Visiting][d.edges[e].fromNode] == New
      ensures marks[cur := Visiting][d.edges[e].toNode] == New && d.edges[e].toNode !in s + cs
    {
      assert d.edges[e].toNode !in s && cur in s;
      assert d.edges[e].toNode in cs ==> TreeChild(d, cur, d.edges[e].toNode);
    }
  }

  lemma PushKeepsChildren(d: FunctionDescription, n: nat, s: seq<nat>, marks: seq<Status>, order: seq<nat>)
    requires WalkInv(d, n, s, marks, order)
    requires |s| > 0 && marks[s[|s| - 1]] == New
    requires Shape(d, n, s + Children(d, s[|s| - 1]), marks) && Distinct(s + Children(d, s[|s| - 1]))
    ensures ChildrenInv(d, n, s + Children(d, s[|s| - 1]), marks[s[|s| - 1] := Visiting])
  {
    var cur := s[|s| - 1];
    var s', marks' := s + Children(d, cur), marks[cur := Visiting];
    forall e, j | TreeEdge(d, e) && 0 <= j < |s'| && s'[j] == d.edges[e].fromNode && marks'[s'[j]] == Visiting
      ensures marks'[d.edges[e].toNode] == Visited || Above(s', j, d.edges[e].toNode)
    {
      PushKeepsAbove(d, n, s, marks, order, e, j);
    }
  }

  lemma PushKeepsAbove(d: FunctionDescription, n: nat, s: seq<nat>, marks: seq<Status>, order: seq<nat>, e: int, j: int)
    requires WalkInv(d, n, s, marks, order) && |s| > 0 && marks[s[|s| - 1]] == New
    requires TreeEdge(d, e) && 0 <= j < |s + Children(d, s[|s| - 1])|
    requires (s + Children(d, s[|s| - 1]))[j] == d.edges[e].fromNode
    requires Distinct(s + Children(d, s[|s| - 1]))
    requires marks[d.edges[e].fromNode] == Visiting || d.edges[e].fromNode == s[|s| - 1]
    ensures marks[s[|s| - 1] := Visiting][d.edges[e].toNode] == Visited ||
            Above(s + Children(d, s[|s| - 1]), j, d.edges[e].toNode)
  {
    var cur := s[|s| - 1];
    var cs := Children(d, cur);
    var s' := s + cs;
    var to := d.edges[e].toNode;
    if d.edges[e].fromNode == cur {
      ChildrenAreTreeTargets(d, cur);
      assert TreeChild(d, cur, to);
      var k :| 0 <= k < |cs| && cs[k] == to;
      assert s'[|s| - 1] == cur;
      assert j == |s| - 1;
      assert s'[|s| + k] == to;
    } else {
      assert d.edges[e].fromNode in s;
      var i :| 0 <= i < |s| && s[i] == d.edges[e].fromNode;
      assert s'[i] == s[i];
      assert i == j;
      if marks[to] != Visited {
        var k :| 0 <= k < |s| && j < k && s[k] == to;
        assert s'[k] == to;
      }
    }
  }

  /** All tree children of the node on top, if it was being visited, are finished. */
  lemma TopHasFinishedChildren(d: FunctionDescription, n: nat, s: seq<nat>, marks: seq<Status>, order: seq<nat>)
    requires WalkInv(d, n, s, marks, order)
    requires |s| > 0 && marks[s[|s| - 1]] == Visiting
    ensures forall e :: TreeEdge(d, e) && d.edges[e].fromNode == s[|s| - 1] ==> marks[d.edges[e].toNode] == Visited
  {
    forall e | TreeEdge(d, e) && d.edges[e].fromNode == s[|s| - 1] ensures marks[d.edges[e].toNode] == Visited {
      assert !Above(s, |s| - 1, d.edges[e].toNode);
    }
  }

  lemma FinishKeepsChildren(d: FunctionDescription, n: nat, s: seq<nat>, marks: seq<Status>, order: seq<nat>)
    requires WalkInv(d, n, s, marks, order)
    requires |s| > 0 && marks[s[|s| - 1]] == Visiting
    ensures ChildrenInv(d, n, s[..|s| - 1], marks[s[|s| - 1] := Visited])
  {
    var s', marks' := s[..|s| - 1], marks[s[|s| - 1] := Visited];
    TopHasFinishedChildren(d, n, s, marks, order);
    forall e, j | TreeEdge(d, e) && 0 <= j < |s'| && s'[j] == d.edges[e].fromNode && marks'[s'[j]] == Visiting
      ensures marks'[d.edges[e].toNode] == Visited || Above(s', j, d.edges[e].toNode)
    {
      assert s[j] == d.edges[e].fromNode;
      if marks'[d.edges[e].toNode] != Visited {
        var k :| 0 <= k < |s| && j < k && s[k] == d.edges[e].toNode;
        assert s'[k] == d.edges[e].toNode;
      }
    }
  }

  /** Popping a node that was being visited: all its tree children are finished, and now so is it. */
  lemma FinishStep(d: FunctionDescription, n: nat, s: seq<nat>, marks: seq<Status>, order: seq<nat>)
    requires WalkInv(d, n, s, marks, order)
    requires |s| > 0 && marks[s[|s| - 1]] == Visiting
    ensures WalkInv(d, n, s[..|s| - 1], marks[s[|s| - 1] := Visited], order + [s[|s| - 1]])
    ensures forall e :: TreeEdge(d, e) && d.edges[e].fromNode == s[|s| - 1] ==> marks[d.edges[e].toNode] == Visited
  {
    var cur := s[|s| - 1];
    var s', marks' := s[..|s| - 1], marks[cur := Visited];
    assert s == s' + [cur];
    TopHasFinishedChildren(d, n, s, marks, order);
    FinishKeepsChildren(d, n, s, marks, order);
    forall v | 0 <= v < n && marks'[v] == Visiting ensures v in s' { assert v in s; }
    FinishExtendsOrder(d, n, marks, order, cur);
  }

  lemma FinishExtendsOrder(d: FunctionDescription, n: nat, marks: seq<Status>, order: seq<nat>, cur: nat)
    requires Covers(d, n) && |marks| == n && cur < n && marks[cur] != Visited
    requires FinishOrder(d, n, marks, order)
    requires forall e :: TreeEdge(d, e) && d.edges[e].fromNode == cur ==> marks[d.edges[e].toNode] == Visited
    ensures FinishOrder(d, n, marks[cur := Visited], order + [cur])
  {
    var order' := order + [cur];
    forall v | 0 <= v < n && marks[cur := Visited][v] == Visited ensures v in order' {
      if v == cur { assert order'[|order|] == v; }
    }
    forall e, j | TreeEdge(d, e) && 0 <= j < |order'| && order'[j] == d.edges[e].fromNode
      ensures d.edges[e].toNode in order'[..j]
    {
      if j < |order| {
        assert order'[..j] == order[..j];
      } else {
        assert order'[..j] == order;
      }
    }
  }

  /** When the stack is empty the marked nodes are the roots and are closed under tree edges, both ways. */
  lemma WalkEnds(d: FunctionDescription, n: nat, marks: seq<Status>, order: seq<nat>)
    requires WalkInv(d, n, [], marks, order)
    ensures forall v :: 0 <= v < n && Root(d, v) ==> v in order
    ensures forall e :: TreeEdge(d, e) ==> (d.edges[e].fromNode in order <==> d.edges[e].toNode in order)
  {
    forall e | TreeEdge(d, e) ensures d.edges[e].fromNode in order <==> d.edges[e].toNode in order {
      assert marks[d.edges[e].fromNode] == Visited <==> marks[d.edges[e].toNode] == Visited;
    }
  }

  function MaxOf(h: seq<nat>): (m: nat)
    ensures forall i :: 0 <= i < |h| ==> h[i] <= m
  {
    if h == [] then 0
    else
      var rest := MaxOf(h[..|h| - 1]);
      if h[|h| - 1] > rest then h[|h| - 1] else rest
  }

  /** Without tree cycles the walk finishes every node. */
  lemma {:induction false} AllFinished(d: FunctionDescription, n: nat, h: seq<nat>, order: seq<nat>, v: nat)
    requires Heights(d, n, h) && v < n
    requires forall v :: 0 <= v < n && Root(d, v) ==> v in order
    requires forall e :: TreeEdge(d, e) ==> (d.edges[e].fromNode in order <==> d.edges[e].toNode in order)
    ensures v in order
    decreases MaxOf(h) - h[v]
  {
    if !Root(d, v) {
      var e :| TreeEdge(d, e) && d.edges[e].toNode == v;
      AllFinished(d, n, h, order, d.edges[e].fromNode);
    }
  }

  /** A graph with nodes and no tree cycles has a root. */
  lemma {:induction false} RootAbove(d: FunctionDescription, n: nat, h: seq<nat>, v: nat) returns (r: nat)
    requires Heights(d, n, h) && v < n
    ensures r < n && Root(d, r)
    decreases MaxOf(h) - h[v]
  {
    r := v;
    if !Root(d, v) {
      var e :| TreeEdge(d, e) && d.edges[e].toNode == v;
      r := RootAbove(d, n, h, d.edges[e].fromNode);
    }
  }
}
