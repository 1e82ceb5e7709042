/** The delta debugger with its cache of failing sets. */
module DeltaAlgorithm {
  import opened DeltaSpec
  import opened Wrappers
  import opened Sequences

  class DeltaAlgorithm<T(==, !new)> {
    const test: seq<T> -> bool
    /** The sets known to fail. */
    var cache: set<set<T>>
    /** Every list the test was run on. */
    ghost var tested: seq<seq<T>>

    /**
     The cache holds exactly the failing sets among those tested, none of which
     was tested twice; everything tested was a part of `whole`.
     */
    ghost predicate Valid(whole: seq<T>)
      reads this
    {
      && (forall i :: 0 <= i < |tested| ==> PartOf(tested[i], whole) && (test(tested[i]) || Elems(tested[i]) in cache))
      && (forall x :: x in cache ==> exists i :: 0 <= i < |tested| && Elems(tested[i]) == x && !test(tested[i]))
      && (forall i, j :: 0 <= i < j < |tested| && !test(tested[j]) ==> Elems(tested[i]) != Elems(tested[j]))
    }

    constructor (test: seq<T> -> bool)
      ensures this.test == test && cache == {} && tested == []
      ensures forall whole :: Valid(whole)
    {
      this.test := test;
      cache, tested := {}, [];
    }

    /** The test, not run again on a set that is known to fail. */
    method GetTestResult(changes: seq<T>, ghost whole: seq<T>) returns (r: bool)
      requires Valid(whole) && PartOf(changes, whole)
      modifies this
      ensures Valid(whole) && r == test(changes)
      ensures old(tested) <= tested && old(cache) <= cache
    {
      var changeset := Elems(changes);
      if changeset in cache {
        ghost var i :| 0 <= i < |tested| && Elems(tested[i]) == changeset && !test(tested[i]);
        PartsAreSets(tested[i], changes, whole);
        return false;
      }
      ghost var was := tested;
      tested := tested + [changes];
      if !test(changes) {
        FailedBefore(was, changes, whole);
        cache := cache + {changeset};
        r := false;
      } else {
        r := true;
      }
      assert tested[|was|] == changes;
      assert forall i :: 0 <= i < |was| ==> tested[i] == was[i];
    }

    lemma FailedBefore(was: seq<seq<T>>, changes: seq<T>, whole: seq<T>)
      requires forall i :: 0 <= i < |was| ==> PartOf(was[i], whole) && (test(was[i]) || Elems(was[i]) in cache)
      requires PartOf(changes, whole) && !test(changes) && Elems(changes) !in cache
      ensures forall i :: 0 <= i < |was| ==> Elems(was[i]) != Elems(changes)
    {
      forall i | 0 <= i < |was| ensures Elems(was[i]) != Elems(changes) {
        if Elems(was[i]) == Elems(changes) { PartsAreSets(was[i], changes, whole); }
      }
    }

    /** Fails on failing changes unless forced; else returns what the uncached algorithm returns. */
    method RunDelta(changes: seq<T>, force: bool) returns (r: Outcome<T>)
      requires Distinct(changes) && Valid(changes)
      modifies this
      ensures Valid(changes)
      ensures r == Run(test, changes, force)
    {
      FilterAll(changes, Elems(changes));
      FilterNone(changes, {});
      assert Elems<T>([]) == {};
      if !force {
        var initial := GetTestResult(changes, changes);
        if !initial { return InitialTestFails; }
      }
      var empty := GetTestResult([], changes);
      if empty { return Result([]); }
      SplitCuts(changes);
      var left := DeltaFrom(changes, Split(changes), changes);
      r := Result(left);
    }

    method DeltaFrom(c: seq<T>, sets: seq<seq<T>>, ghost whole: seq<T>) returns (r: seq<T>)
      requires Ready(c, sets) && Distinct(c) && PartOf(c, whole) && Valid(whole)
      modifies this
      ensures Valid(whole) && r == Delta(test, c, sets)
      decreases |c|, |c| - |sets|, 1
    {
      if |sets| <= 1 { return c; }
      PiecesAreSmaller(c, sets, 0);
      var found := SearchSets(c, sets, whole);
      if found.Some? { return found.value; }
      RefineCuts(sets);
      RefineKeepsPiecesFull(sets);
      ConcatIsLong(Refine(sets));
      var refined := RefineSets(sets);
      if |refined| == |sets| { return c; }
      r := DeltaFrom(c, refined, whole);
    }

    method RefineSets(sets: seq<seq<T>>) returns (refined: seq<seq<T>>)
      ensures refined == Refine(sets)
    {
      refined := [];
      for i := 0 to |sets|
        invariant refined == Refine(sets[..i])
      {
        assert sets[..i + 1][..i] == sets[..i];
        refined := refined + Split(sets[i]);
      }
      assert sets[..|sets|] == sets;
    }

    method SearchSets(c: seq<T>, sets: seq<seq<T>>, ghost whole: seq<T>) returns (r: Option<seq<T>>)
      requires Ready(c, sets) && |sets| >= 2 && Distinct(c) && PartOf(c, whole) && Valid(whole)
      modifies this
      ensures Valid(whole) && r == Search(test, c, sets, 0)
      decreases |c|, |c| - |sets|, 0
    {
      for i := 0 to |sets|
        invariant Valid(whole) && Search(test, c, sets, 0) == Search(test, c, sets, i)
      {
        PiecesAreSmaller(c, sets, i);
        PiecesAreParts(c, sets, i);
        PartOfPart(sets[i], c, whole);
        // Keep this piece only
        var alone := GetTestResult(sets[i], whole);
        if alone {
          SplitCuts(sets[i]);
          var left := DeltaFrom(sets[i], Split(sets[i]), whole);
          return Some(left);
        }
        // Or drop it, unless that has just been asked of the other of two
        if |sets| > 2 {
          var complement := Concat(Without(sets, i));
          PartOfPart(complement, c, whole);
          var others := GetTestResult(complement, whole);
          if others {
            var left := DeltaFrom(complement, Without(sets, i), whole);
            return Some(left);
          }
        }
      }
      r := None;
    }
  }
}
