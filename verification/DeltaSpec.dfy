/**
 Delta debugging over lists of changes, without the cache: the recursion, and
 what it returns.
 */
module DeltaSpec {
  import opened Wrappers
  import opened Sequences

  // ---------- Lists, and what is left of them ----------

  function Elems<T(==)>(s: seq<T>): set<T> { set x | x in s }

  /** The elements of `s` that are in `x`, in order. */
  function Filter<T(==)>(s: seq<T>, x: set<T>): seq<T> {
    if s == [] then []
    else
      var rest := Filter(s[..|s| - 1], x);
      if s[|s| - 1] in x then rest + [s[|s| - 1]] else rest
  }

  /** `s` is what is left of `whole` after taking some elements out. */
  ghost predicate PartOf<T>(s: seq<T>, whole: seq<T>) { s == Filter(whole, Elems(s)) }

  lemma ElemsAppend<T>(s: seq<T>, x: T)
    ensures Elems(s + [x]) == Elems(s) + {x}
  {
  }

  lemma {:induction false} FilterElems<T>(s: seq<T>, x: set<T>)
    ensures Elems(Filter(s, x)) == Elems(s) * x
    ensures |Filter(s, x)| <= |s|
  {
    if s != [] {
      var rest, last := s[..|s| - 1], s[|s| - 1];
      FilterElems(rest, x);
      ElemsAppend(rest, last);
      assert s == rest + [last];
      ElemsAppend(Filter(rest, x), last);
    }
  }

  lemma {:induction false} FilterConcat<T>(a: seq<T>, b: seq<T>, x: set<T>)
    ensures Filter(a + b, x) == Filter(a, x) + Filter(b, x)
  {
    if b == [] {
      assert a + b == a;
    } else {
      FilterConcat(a, b[..|b| - 1], x);
      assert (a + b)[..|a + b| - 1] == a + b[..|b| - 1];
    }
  }

  lemma {:induction false} FilterAll<T>(s: seq<T>, x: set<T>)
    requires Elems(s) <= x
    ensures Filter(s, x) == s
  {
    if s != [] {
      assert s[|s| - 1] in Elems(s);
      FilterAll(s[..|s| - 1], x);
    }
  }

  lemma {:induction false} FilterNone<T>(s: seq<T>, x: set<T>)
    requires Elems(s) !! x
    ensures Filter(s, x) == []
  {
    if s != [] {
      assert s[|s| - 1] in Elems(s);
      FilterNone(s[..|s| - 1], x);
    }
  }

  lemma {:induction false} FilterTwice<T>(s: seq<T>, x: set<T>, y: set<T>)
    requires y <= x
    ensures Filter(Filter(s, x), y) == Filter(s, y)
  {
    if s != [] {
      var rest, last := s[..|s| - 1], s[|s| - 1];
      FilterTwice(rest, x, y);
      FilterConcat(Filter(rest, x), [last], y);
    }
  }

  /** A part of a list without repetitions is determined by its elements. */
  lemma PartsAreSets<T>(s: seq<T>, s': seq<T>, whole: seq<T>)
    requires PartOf(s, whole) && PartOf(s', whole) && Elems(s) == Elems(s')
    ensures s == s'
  {
  }

  lemma PartOfPart<T>(s: seq<T>, c: seq<T>, whole: seq<T>)
    requires PartOf(s, c) && PartOf(c, whole)
    ensures PartOf(s, whole)
  {
    FilterElems(c, Elems(s));
    FilterTwice(whole, Elems(c), Elems(s));
  }

  /** Keeping the middle, or dropping it, leaves a part. */
  lemma MiddleIsPart<T>(a: seq<T>, b: seq<T>, d: seq<T>)
    requires Distinct(a + b + d)
    ensures PartOf(b, a + b + d) && PartOf(a + d, a + b + d)
    ensures Distinct(b) && Distinct(a + d)
  {
    var c := a + b + d;
    assert forall i :: 0 <= i < |a| ==> c[i] == a[i];
    assert forall i :: 0 <= i < |b| ==> c[|a| + i] == b[i];
    assert forall i :: 0 <= i < |d| ==> c[|a| + |b| + i] == d[i];
    DisjointFilters(a, b, d);
  }

  lemma FilterThree<T>(a: seq<T>, b: seq<T>, d: seq<T>, x: set<T>, fa: seq<T>, fb: seq<T>, fd: seq<T>)
    requires fa == Filter(a, x) && fb == Filter(b, x) && fd == Filter(d, x)
    ensures Filter(a + b + d, x) == fa + fb + fd
  {
    FilterConcat(a + b, d, x);
    FilterConcat(a, b, x);
  }

  lemma DisjointFilters<T>(a: seq<T>, b: seq<T>, d: seq<T>)
    requires Elems(a) !! Elems(b) && Elems(b) !! Elems(d)
    ensures PartOf(b, a + b + d) && PartOf(a + d, a + b + d)
  {
    FilterMiddle(a, b, d, Elems(b));
    OthersPart(a, b, d);
  }

  lemma FilterMiddle<T>(a: seq<T>, b: seq<T>, d: seq<T>, x: set<T>)
    requires Elems(a) !! x && Elems(b) <= x && Elems(d) !! x
    ensures Filter(a + b + d, x) == b
  {
    FilterNone(a, x);
    FilterAll(b, x);
    FilterNone(d, x);
    FilterThree(a, b, d, x, [], b, []);
  }

  lemma OthersPart<T>(a: seq<T>, b: seq<T>, d: seq<T>)
    requires Elems(a) !! Elems(b) && Elems(b) !! Elems(d)
    ensures PartOf(a + d, a + b + d)
  {
    ElemsConcat(a, d);
    FilterOthers(a, b, d, Elems(a + d));
  }

  lemma FilterOthers<T>(a: seq<T>, b: seq<T>, d: seq<T>, x: set<T>)
    requires Elems(a) <= x && Elems(d) <= x && Elems(b) !! x
    ensures Filter(a + b + d, x) == a + d
  {
    FilterAll(a, x);
    FilterNone(b, x);
    FilterAll(d, x);
    FilterThree(a, b, d, x, a, [], d);
    NoneBetween(a, d);
  }

  lemma NoneBetween<T>(a: seq<T>, d: seq<T>)
    ensures a + [] + d == a + d
  {
  }

  lemma ElemsConcat<T>(a: seq<T>, b: seq<T>)
    ensures Elems(a + b) == Elems(a) + Elems(b)
  {
  }

  // ---------- Lists of lists ----------

  /** All lists of `sets`, one after the other. */
  function Concat<T>(sets: seq<seq<T>>): seq<T> {
    if sets == [] then [] else Concat(sets[..|sets| - 1]) + sets[|sets| - 1]
  }

  lemma {:induction false} ConcatAppend<T>(a: seq<seq<T>>, b: seq<seq<T>>)
    ensures Concat(a + b) == Concat(a) + Concat(b)
  {
    if b == [] {
      assert a + b == a;
    } else {
      ConcatAppend(a, b[..|b| - 1]);
      assert (a + b)[..|a + b| - 1] == a + b[..|b| - 1];
    }
  }

  lemma ConcatOne<T>(s: seq<T>)
    ensures Concat([s]) == s
  {
    assert [s][..0] == [];
  }

  lemma ConcatTwo<T>(a: seq<T>, b: seq<T>)
    ensures Concat([a, b]) == a + b
  {
    ConcatOne(a);
    assert [a, b][..1] == [a];
  }

  /** `sets` cuts `c` into pieces, none of them empty unless `c` is. */
  ghost predicate Cuts<T>(c: seq<T>, sets: seq<seq<T>>) {
    Concat(sets) == c && (c != [] ==> forall i :: 0 <= i < |sets| ==> sets[i] != [])
  }

  function Without<T>(sets: seq<seq<T>>, i: nat): seq<seq<T>>
    requires i < |sets|
  {
    sets[..i] + sets[i + 1..]
  }

  lemma ConcatAround<T>(sets: seq<seq<T>>, i: nat)
    requires i < |sets|
    ensures Concat(sets) == Concat(sets[..i]) + sets[i] + Concat(sets[i + 1..])
    ensures Concat(Without(sets, i)) == Concat(sets[..i]) + Concat(sets[i + 1..])
  {
    ConcatUpTo(sets, i);
    ConcatSplit(sets, i + 1);
    ConcatAppend(sets[..i], sets[i + 1..]);
  }

  lemma ConcatUpTo<T>(sets: seq<seq<T>>, i: nat)
    requires i < |sets|
    ensures Concat(sets[..i + 1]) == Concat(sets[..i]) + sets[i]
  {
    ConcatLast(sets[..i + 1]);
    assert sets[..i + 1][..i] == sets[..i];
  }

  lemma ConcatSplit<T>(sets: seq<seq<T>>, i: nat)
    requires i <= |sets|
    ensures Concat(sets) == Concat(sets[..i]) + Concat(sets[i..])
  {
    ConcatAppend(sets[..i], sets[i..]);
    assert sets == sets[..i] + sets[i..];
  }

  lemma ConcatLast<T>(sets: seq<seq<T>>)
    requires sets != []
    ensures Concat(sets) == Concat(sets[..|sets| - 1]) + sets[|sets| - 1]
  {
  }

  lemma {:induction false} ConcatIsLong<T>(sets: seq<seq<T>>)
    requires forall i :: 0 <= i < |sets| ==> sets[i] != []
    ensures |Concat(sets)| >= |sets|
  {
    if sets != [] { ConcatIsLong(sets[..|sets| - 1]); }
  }

  // ---------- The algorithm ----------

  /** One piece if there is nothing to split, else two halves. */
  function Split<T>(s: seq<T>): (r: seq<seq<T>>)
    ensures |r| == if |s| <= 1 then 1 else 2
  {
    var mid := |s| / 2;
    if mid == 0 then [s] else [s[..mid], s[mid..]]
  }

  lemma SplitCuts<T>(s: seq<T>)
    ensures Cuts(s, Split(s))
    ensures |s| > 1 ==> |Split(s)[0]| == |s| / 2
  {
    ConcatOne(s);
    if |s| > 1 {
      ConcatTwo(s[..|s| / 2], s[|s| / 2..]);
      assert s[..|s| / 2] + s[|s| / 2..] == s;
    }
  }

  /** Every set split. */
  function Refine<T>(sets: seq<seq<T>>): seq<seq<T>> {
    if sets == [] then [] else Refine(sets[..|sets| - 1]) + Split(sets[|sets| - 1])
  }

  /** Splitting every piece cuts the same list into at least as many pieces, and more if any could be split. */
  lemma {:induction false} RefineCuts<T>(sets: seq<seq<T>>)
    ensures Concat(Refine(sets)) == Concat(sets) && |Refine(sets)| >= |sets|
    ensures |Refine(sets)| == |sets| ==> forall i :: 0 <= i < |sets| ==> |sets[i]| <= 1
  {
    if sets != [] {
      var rest, last := sets[..|sets| - 1], sets[|sets| - 1];
      RefineCuts(rest);
      SplitCuts(last);
      ConcatAppend(Refine(rest), Split(last));
    }
    if |Refine(sets)| == |sets| { RefineStalls(sets); }
  }

  /** Piece `i` becomes its halves, in its place: the pieces before it, halved, come before. */
  lemma {:induction false} RefineAt<T>(sets: seq<seq<T>>, i: nat)
    requires i < |sets|
    ensures var before, halves := Refine(sets[..i]), Split(sets[i]);
            |before| + |halves| <= |Refine(sets)| && Refine(sets)[|before|..|before| + |halves|] == halves
  {
    var rest := sets[..|sets| - 1];
    if i < |rest| {
      RefineAt(rest, i);
      assert rest[..i] == sets[..i];
    } else {
      assert rest == sets[..i];
    }
  }

  lemma {:induction false} RefineGrows<T>(sets: seq<seq<T>>)
    ensures |Refine(sets)| >= |sets|
  {
    if sets != [] { RefineGrows(sets[..|sets| - 1]); }
  }

  lemma {:induction false} RefineStalls<T>(sets: seq<seq<T>>)
    requires |Refine(sets)| == |sets|
    ensures forall i :: 0 <= i < |sets| ==> |sets[i]| <= 1
  {
    if sets != [] {
      RefineGrows(sets[..|sets| - 1]);
      RefineStalls(sets[..|sets| - 1]);
    }
  }

  lemma {:induction false} RefineKeepsPiecesFull<T>(sets: seq<seq<T>>)
    requires forall i :: 0 <= i < |sets| ==> sets[i] != []
    ensures forall i :: 0 <= i < |Refine(sets)| ==> Refine(sets)[i] != []
  {
    if sets != [] {
      RefineKeepsPiecesFull(sets[..|sets| - 1]);
      SplitCuts(sets[|sets| - 1]);
    }
  }

  /** The facts that let `Delta` and `Search` go on with a piece, or with all but a piece. */
  lemma PiecesAreSmaller<T>(c: seq<T>, sets: seq<seq<T>>, i: nat)
    requires Cuts(c, sets) && c != [] && |sets| >= 2 && i < |sets|
    ensures 0 < |sets[i]| < |c|
    ensures Cuts(Concat(Without(sets, i)), Without(sets, i)) && 0 < |Concat(Without(sets, i))| < |c|
    ensures |sets| <= |c|
  {
    ConcatAround(sets, i);
    ConcatIsLong(sets);
    ConcatIsLong(Without(sets, i));
  }

  /** What is known of the arguments of `delta`: the pieces make up `c`, and one piece is all only if it cannot be split. */
  ghost predicate Ready<T>(c: seq<T>, sets: seq<seq<T>>) {
    Cuts(c, sets) && (|sets| >= 2 ==> c != []) && (|sets| < 2 ==> |c| <= 1)
  }

  ghost function Delta<T>(test: seq<T> -> bool, c: seq<T>, sets: seq<seq<T>>): seq<T>
    requires Ready(c, sets)
    decreases |c|, |c| - |sets|, |sets| + 1
  {
    if |sets| <= 1 then c
    else
      PiecesAreSmaller(c, sets, 0);
      var found := Search(test, c, sets, 0);
      if found.Some? then found.value
      else
        RefineCuts(sets);
        RefineKeepsPiecesFull(sets);
        var refined := Refine(sets);
        ConcatIsLong(refined);
        if |refined| == |sets| then c else Delta(test, c, refined)
  }

  /** The search from piece `i` on. */
  ghost function Search<T>(test: seq<T> -> bool, c: seq<T>, sets: seq<seq<T>>, i: nat): Option<seq<T>>
    requires Ready(c, sets) && |sets| >= 2 && i <= |sets|
    decreases |c|, |c| - |sets|, |sets| - i
  {
    if i == |sets| then None
    else
      PiecesAreSmaller(c, sets, i);
      SplitCuts(sets[i]);
      if test(sets[i]) then Some(Delta(test, sets[i], Split(sets[i])))
      else if |sets| > 2 && test(Concat(Without(sets, i))) then
        Some(Delta(test, Concat(Without(sets, i)), Without(sets, i)))
      else Search(test, c, sets, i + 1)
  }

  // ---------- What it returns ----------

  /** `s` passes, and no longer does once any one element is taken out. */
  ghost predicate OneMinimal<T>(test: seq<T> -> bool, s: seq<T>) {
    test(s) && forall i :: 0 <= i < |s| ==> !test(s[..i] + s[i + 1..])
  }

  /** What can be kept or dropped of a list without repetitions is a part of it, without repetitions. */
  lemma PiecesAreParts<T>(c: seq<T>, sets: seq<seq<T>>, i: nat)
    requires Cuts(c, sets) && i < |sets| && Distinct(c)
    ensures PartOf(sets[i], c) && PartOf(Concat(Without(sets, i)), c)
    ensures Distinct(sets[i]) && Distinct(Concat(Without(sets, i)))
  {
    ConcatAround(sets, i);
    MiddleIsPart(Concat(sets[..i]), sets[i], Concat(sets[i + 1..]));
  }

  /** When no piece can be split any more, each one is a single element, in its place. */
  lemma {:induction false} Singletons<T>(sets: seq<seq<T>>, i: nat)
    requires forall i :: 0 <= i < |sets| ==> |sets[i]| == 1
    requires i < |sets|
    ensures |Concat(sets)| == |sets| && Concat(sets)[i] == sets[i][0]
    ensures Concat(sets)[..i] + Concat(sets)[i + 1..] == Concat(Without(sets, i))
  {
    SingletonsHaveLength(sets[..i]);
    SingletonsHaveLength(sets[i + 1..]);
    ConcatAround(sets, i);
  }

  lemma {:induction false} SingletonsHaveLength<T>(sets: seq<seq<T>>)
    requires forall i :: 0 <= i < |sets| ==> |sets[i]| == 1
    ensures |Concat(sets)| == |sets|
  {
    if sets != [] { SingletonsHaveLength(sets[..|sets| - 1]); }
  }

  /** A search that finds nothing has seen every piece, and with more than two of them every complement, fail. */
  lemma {:induction false} FoundNothing<T>(test: seq<T> -> bool, c: seq<T>, sets: seq<seq<T>>, i: nat, j: nat)
    requires Ready(c, sets) && |sets| >= 2 && i <= j < |sets| && Search(test, c, sets, i) == None
    ensures !test(sets[j]) && (|sets| > 2 ==> !test(Concat(Without(sets, j))))
    decreases |sets| - i
  {
    if i < j { FoundNothing(test, c, sets, i + 1, j); }
  }

  /** From a passing list whose empty part fails, `Delta` returns a part of it that is 1-minimal. */
  lemma {:induction false} DeltaIsMinimal<T>(test: seq<T> -> bool, c: seq<T>, sets: seq<seq<T>>)
    requires Ready(c, sets) && Distinct(c) && test(c) && !test([])
    ensures var r := Delta(test, c, sets); OneMinimal(test, r) && PartOf(r, c) && Distinct(r)
    decreases |c|, |c| - |sets|, |sets| + 1
  {
    FilterAll(c, Elems(c));
    if |sets| <= 1 {
      OneIsMinimal(test, c);
    } else {
      PiecesAreSmaller(c, sets, 0);
      SearchIsMinimal(test, c, sets, 0);
      if Search(test, c, sets, 0) == None {
        RefineCuts(sets);
        RefineKeepsPiecesFull(sets);
        ConcatIsLong(Refine(sets));
        if |Refine(sets)| == |sets| {
          NothingCanGo(test, c, sets);
        } else {
          DeltaIsMinimal(test, c, Refine(sets));
        }
      }
    }
  }

  lemma OneIsMinimal<T>(test: seq<T> -> bool, c: seq<T>)
    requires |c| <= 1 && test(c) && !test([])
    ensures OneMinimal(test, c)
  {
    assert |c| == 1 ==> c[..0] + c[1..] == [];
  }

  lemma NothingCanGo<T>(test: seq<T> -> bool, c: seq<T>, sets: seq<seq<T>>)
    requires Ready(c, sets) && |sets| >= 2 && Search(test, c, sets, 0) == None
    requires |Refine(sets)| == |sets|
    ensures forall i :: 0 <= i < |c| ==> !test(c[..i] + c[i + 1..])
  {
    RefineCuts(sets);
    assert forall i :: 0 <= i < |sets| ==> sets[i] != [] && |sets[i]| == 1;
    SingletonsHaveLength(sets);
    forall i | 0 <= i < |c| ensures !test(c[..i] + c[i + 1..]) {
      Singletons(sets, i);
      FoundNothing(test, c, sets, 0, i);
      if |sets| == 2 {
        FoundNothing(test, c, sets, 0, 1 - i);
        ConcatOne(sets[1 - i]);
        assert Without(sets, i) == [sets[1 - i]];
      }
    }
  }

  lemma {:induction false} SearchIsMinimal<T>(test: seq<T> -> bool, c: seq<T>, sets: seq<seq<T>>, i: nat)
    requires Ready(c, sets) && |sets| >= 2 && i <= |sets| && Distinct(c) && !test([])
    ensures var r := Search(test, c, sets, i);
            r.Some? ==> OneMinimal(test, r.value) && PartOf(r.value, c) && Distinct(r.value)
    decreases |c|, |c| - |sets|, |sets| - i
  {
    if i < |sets| {
      PiecesAreSmaller(c, sets, i);
      PiecesAreParts(c, sets, i);
      var rest := Concat(Without(sets, i));
      if test(sets[i]) {
        SplitCuts(sets[i]);
        DeltaIsMinimal(test, sets[i], Split(sets[i]));
        PartOfPart(Delta(test, sets[i], Split(sets[i])), sets[i], c);
      } else if |sets| > 2 && test(rest) {
        DeltaIsMinimal(test, rest, Without(sets, i));
        PartOfPart(Delta(test, rest, Without(sets, i)), rest, c);
      } else {
        SearchIsMinimal(test, c, sets, i + 1);
      }
    }
  }

  /** Nothing before piece `i` was found to pass, neither alone nor as all but a piece. */
  ghost predicate FailsBefore<T>(test: seq<T> -> bool, sets: seq<seq<T>>, i: nat)
    requires i <= |sets|
  {
    forall j :: 0 <= j < i ==> !test(sets[j]) && (|sets| > 2 ==> !test(Concat(Without(sets, j))))
  }

  /**
   The search goes into the first piece that passes alone, or comes before any
   that does and can be left out of more than two; what it finds is in there.
   */
  lemma {:induction false} SearchGoesInside<T>(test: seq<T> -> bool, c: seq<T>, sets: seq<seq<T>>, from: nat, i: nat)
    requires Ready(c, sets) && |sets| >= 2 && from <= i < |sets| && Distinct(c) && !test([]) && FailsBefore(test, sets, i)
    ensures var r := Search(test, c, sets, from);
            && (test(sets[i]) ==> r.Some? && OneMinimal(test, r.value) && PartOf(r.value, sets[i]))
            && (!test(sets[i]) && |sets| > 2 && test(Concat(Without(sets, i))) ==>
                  r.Some? && OneMinimal(test, r.value) && PartOf(r.value, Concat(Without(sets, i))))
    decreases i - from
  {
    if from < i {
      SearchGoesInside(test, c, sets, from + 1, i);
    } else {
      PiecesAreSmaller(c, sets, i);
      PiecesAreParts(c, sets, i);
      if test(sets[i]) {
        SplitCuts(sets[i]);
        DeltaIsMinimal(test, sets[i], Split(sets[i]));
      } else if |sets| > 2 && test(Concat(Without(sets, i))) {
        DeltaIsMinimal(test, Concat(Without(sets, i)), Without(sets, i));
      }
    }
  }

  /** From a list that fails, `Delta` returns a 1-minimal part, or the list itself if no one element can go. */
  lemma {:induction false} DeltaOfFailing<T>(test: seq<T> -> bool, c: seq<T>, sets: seq<seq<T>>)
    requires Ready(c, sets) && Distinct(c) && !test(c) && !test([])
    ensures var r := Delta(test, c, sets);
            || (OneMinimal(test, r) && PartOf(r, c))
            || (r == c && forall i :: 0 <= i < |c| ==> !test(c[..i] + c[i + 1..]))
    decreases |c|, |c| - |sets|
  {
    if |sets| <= 1 {
      assert |c| == 1 ==> c[..0] + c[1..] == [];
    } else {
      PiecesAreSmaller(c, sets, 0);
      SearchIsMinimal(test, c, sets, 0);
      if Search(test, c, sets, 0) == None {
        RefineCuts(sets);
        RefineKeepsPiecesFull(sets);
        ConcatIsLong(Refine(sets));
        if |Refine(sets)| == |sets| {
          NothingCanGo(test, c, sets);
        } else {
          DeltaOfFailing(test, c, Refine(sets));
        }
      }
    }
  }

  // ---------- The whole run ----------

  datatype Outcome<T> = InitialTestFails | Result(changes: seq<T>)

  ghost function Run<T>(test: seq<T> -> bool, changes: seq<T>, force: bool): Outcome<T> {
    if !force && !test(changes) then InitialTestFails
    else if test([]) then Result([])
    else
      SplitCuts(changes);
      Result(Delta(test, changes, Split(changes)))
  }

  /** Without `force`, a run fails exactly on failing changes, and otherwise returns a 1-minimal part of them. */
  lemma RunIsMinimal<T>(test: seq<T> -> bool, changes: seq<T>)
    requires Distinct(changes)
    ensures Run(test, changes, false) == InitialTestFails <==> !test(changes)
    ensures test(changes) ==>
              var r := Run(test, changes, false).changes; OneMinimal(test, r) && PartOf(r, changes)
  {
    if test(changes) {
      if test([]) {
        FilterNone(changes, {});
        assert Elems<T>([]) == {};
      } else {
        SplitCuts(changes);
        DeltaIsMinimal(test, changes, Split(changes));
      }
    }
  }

  /** With `force` a run never fails: of failing changes it returns a 1-minimal part, or all of them if no one can go. */
  lemma ForcedRun<T>(test: seq<T> -> bool, changes: seq<T>)
    requires Distinct(changes)
    ensures Run(test, changes, true).Result?
    ensures test(changes) ==> Run(test, changes, true) == Run(test, changes, false)
    ensures test([]) ==> Run(test, changes, true) == Result([])
    ensures !test(changes) && !test([]) ==>
              var r := Run(test, changes, true).changes;
              || (OneMinimal(test, r) && PartOf(r, changes))
              || (r == changes && forall i :: 0 <= i < |changes| ==> !test(changes[..i] + changes[i + 1..]))
  {
    SplitCuts(changes);
    if !test(changes) && !test([]) { DeltaOfFailing(test, changes, Split(changes)); }
  }

  ghost predicate Monotone<T(!new)>(test: seq<T> -> bool, changes: seq<T>) {
    forall s, t :: PartOf(t, changes) && PartOf(s, t) && test(s) ==> test(t)
  }

  /** If taking more changes never makes the test fail, no part at all can be taken out of the result. */
  lemma MonotoneRunIsMinimum<T(!new)>(test: seq<T> -> bool, changes: seq<T>, s: seq<T>)
    requires Distinct(changes) && test(changes) && Monotone(test, changes)
    requires var r := Run(test, changes, false).changes; PartOf(s, r) && s != r
    ensures !test(s)
  {
    RunIsMinimal(test, changes);
    var r := Run(test, changes, false).changes;
    FilterIsDistinct(changes, Elems(r));
    var i := ProperPartMisses(s, r);
    PartOfPart(r[..i] + r[i + 1..], r, changes);
  }

  /** A proper part of a list is a part of the list with some one element taken out. */
  lemma ProperPartMisses<T>(s: seq<T>, r: seq<T>) returns (i: nat)
    requires Distinct(r) && PartOf(s, r) && s != r
    ensures i < |r| && PartOf(s, r[..i] + r[i + 1..]) && PartOf(r[..i] + r[i + 1..], r)
  {
    if Elems(r) <= Elems(s) { FilterAll(r, Elems(s)); }
    var x :| x in Elems(r) && x !in Elems(s);
    i :| 0 <= i < |r| && r[i] == x;
    TakingOut(r, i, Elems(s));
  }

  lemma TakingOut<T>(r: seq<T>, i: nat, x: set<T>)
    requires Distinct(r) && i < |r| && r[i] !in x
    ensures Filter(r, x) == Filter(r[..i] + r[i + 1..], x)
    ensures PartOf(r[..i] + r[i + 1..], r)
  {
    var a, b, d := r[..i], [r[i]], r[i + 1..];
    assert r == a + b + d;
    MiddleIsPart(a, b, d);
    FilterAround(a, b, d, x);
  }

  lemma FilterAround<T>(a: seq<T>, b: seq<T>, d: seq<T>, x: set<T>)
    requires Elems(b) !! x
    ensures Filter(a + b + d, x) == Filter(a + d, x)
  {
    FilterNone(b, x);
    FilterThree(a, b, d, x, Filter(a, x), [], Filter(d, x));
    FilterConcat(a, d, x);
  }

  lemma {:induction false} FilterIsDistinct<T>(s: seq<T>, x: set<T>)
    requires Distinct(s)
    ensures Distinct(Filter(s, x))
  {
    if s != [] {
      var rest := s[..|s| - 1];
      FilterIsDistinct(rest, x);
      FilterElems(rest, x);
      AppendDistinct(Filter(rest, x), s[|s| - 1], Elems(rest));
    }
  }

  lemma AppendDistinct<T>(s: seq<T>, y: T, x: set<T>)
    requires Distinct(s) && Elems(s) <= x && y !in x
    ensures Distinct(s + [y])
  {
    forall i | 0 <= i < |s| ensures s[i] != y { assert s[i] in Elems(s); }
  }
}
