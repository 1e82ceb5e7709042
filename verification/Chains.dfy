/** Singly linked lists threaded through one array of `next` links; positions stand for pointers. */
module Chains {
  import opened Sequences

  /** The null pointer. */
  const NULL: int := -1

  /** Following `next` from `head` passes exactly through `list` and arrives at `end`. */
  ghost predicate Segment(next: seq<int>, head: int, list: seq<int>, end: int)
    decreases |list|
  {
    if list == [] then head == end
    else 0 <= head < |next| && head == list[0] && Segment(next, next[head], list[1..], end)
  }

  lemma {:induction false} SegmentsJoin(next: seq<int>, head: int, a: seq<int>, middle: int, b: seq<int>, end: int)
    requires Segment(next, head, a, middle) && Segment(next, middle, b, end)
    ensures Segment(next, head, a + b, end)
    decreases |a|
  {
    if a == [] {
      assert a + b == b;
    } else {
      SegmentsJoin(next, next[head], a[1..], middle, b, end);
      assert (a + b)[1..] == a[1..] + b;
    }
  }

  /** A list ends where its last element points. */
  lemma {:induction false} SegmentEnd(next: seq<int>, head: int, list: seq<int>, end: int)
    requires Segment(next, head, list, end) && list != []
    ensures 0 <= list[|list| - 1] < |next| && next[list[|list| - 1]] == end
    ensures head == list[0]
    decreases |list|
  {
    if |list| > 1 {
      SegmentEnd(next, next[head], list[1..], end);
      assert list[1..][|list| - 2] == list[|list| - 1];
    }
  }

  /** Links outside a list do not matter to it. */
  lemma {:induction false} SegmentFrame(next: seq<int>, next': seq<int>, head: int, list: seq<int>, end: int)
    requires Segment(next, head, list, end) && |next'| == |next|
    requires forall i :: 0 <= i < |next| && i in list ==> next'[i] == next[i]
    ensures Segment(next', head, list, end)
    decreases |list|
  {
    if list != [] {
      SegmentFrame(next, next', next[head], list[1..], end);
    }
  }

  /** Redirecting the last link redirects the whole list. */
  lemma {:induction false} SegmentRedirect(next: seq<int>, head: int, list: seq<int>, end: int, to: int)
    requires Segment(next, head, list, end) && list != [] && Distinct(list) && 0 <= list[|list| - 1] < |next|
    ensures Segment(next[list[|list| - 1] := to], head, list, to)
    decreases |list|
  {
    if |list| > 1 {
      assert list[1..][|list| - 2] == list[|list| - 1];
      assert forall i, j :: 0 <= i < j < |list[1..]| ==> list[1..][i] == list[i + 1] && list[1..][j] == list[j + 1];
      SegmentRedirect(next, next[head], list[1..], end, to);
    }
  }

  /** A list that splits around its element `cur`, the links before and after it, and nothing twice. */
  ghost predicate Around(next: seq<int>, head: int, before: seq<int>, cur: int, after: seq<int>) {
    && 0 <= cur < |next|
    && Segment(next, head, before, cur) && Segment(next, next[cur], after, NULL)
    && cur !in before && cur !in after && Distinct(before)
    && forall x :: x in before ==> x !in after
  }

  /** Moving `cur` to the front: its predecessor skips it, it points to the old front, and it is the new one. */
  lemma MoveToFront(next: seq<int>, head: int, before: seq<int>, cur: int, after: seq<int>)
    requires Around(next, head, before, cur, after) && before != []
    ensures 0 <= before[|before| - 1] < |next|
    ensures Segment(next[before[|before| - 1] := next[cur]][cur := head], cur, [cur] + before + after, NULL)
  {
    SegmentEnd(next, head, before, cur);
    var prev := before[|before| - 1];
    var next1 := next[prev := next[cur]];
    var next2 := next1[cur := head];
    assert prev in before;
    SegmentRedirect(next, head, before, cur, next[cur]);
    SegmentFrame(next1, next2, head, before, next[cur]);
    SegmentFrame(next, next2, next[cur], after, NULL);
    SegmentsJoin(next2, head, before, next[cur], after, NULL);
    assert ([cur] + before + after)[1..] == before + after;
  }

  /** Putting `cur`, which is not on the list, in front of it. */
  lemma PushFront(next: seq<int>, head: int, list: seq<int>, cur: int)
    requires Segment(next, head, list, NULL) && 0 <= cur < |next| && cur !in list
    ensures Segment(next[cur := head], cur, [cur] + list, NULL)
  {
    SegmentFrame(next, next[cur := head], head, list, NULL);
    assert ([cur] + list)[1..] == list;
  }

  /** Going on from element `i` of a list to the next. */
  lemma SegmentStep(next: seq<int>, head: int, list: seq<int>, i: nat, cur: int)
    requires i <= |list| && cur != NULL
    requires Segment(next, head, list[..i], cur) && Segment(next, cur, list[i..], NULL)
    ensures i < |list| && cur == list[i] && 0 <= cur < |next|
    ensures Segment(next, head, list[..i + 1], next[cur]) && Segment(next, next[cur], list[i + 1..], NULL)
  {
    assert list[i..][1..] == list[i + 1..];
    assert Segment(next, cur, [cur], next[cur]);
    SegmentsJoin(next, head, list[..i], cur, [cur], next[cur]);
    assert list[..i + 1] == list[..i] + [cur];
  }

  /** The first `i` elements of a list, with what comes next as their end. */
  lemma {:induction false} SegmentPrefix(next: seq<int>, head: int, list: seq<int>, i: nat, end: int)
    requires Segment(next, head, list, end) && i < |list|
    ensures Segment(next, head, list[..i], list[i])
    decreases i
  {
    if i > 0 {
      SegmentPrefix(next, next[head], list[1..], i - 1, end);
      assert list[..i][1..] == list[1..][..i - 1];
    }
  }
}
