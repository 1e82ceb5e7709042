/**
 The cache of unwind section headers: eight entries in one array, on two lists
 threaded through it, kept in the order they were last used.
 */
module HeaderCache {
  import opened Chains
  import opened Words
  import opened Sequences

  const ULLONG_MAX: nat := 0xffff_ffff_ffff_ffff
  const ENTRY_COUNT: nat := 8

  datatype UnwindInfoSections = UnwindInfoSections(
    dsoBase: nat, textSegmentLength: nat,
    dwarfSection: nat, dwarfSectionLength: nat,
    dwarfIndexSection: nat, dwarfIndexSectionLength: nat)
  {
    /** Is `pc` in the text segment the sections are for? */
    predicate Covers(pc: nat) { dsoBase <= pc < (dsoBase + textSegmentLength) % TWO64 }
  }

  const NO_SECTIONS: UnwindInfoSections := UnwindInfoSections(0, 0, 0, 0, 0, 0)

  // ---------- What the cache does, on the sequence of its contents ----------

  /** The position of the first of `infos` that covers `pc`, or their number. */
  function FirstHit(infos: seq<UnwindInfoSections>, pc: nat): (i: nat)
    ensures i <= |infos|
    ensures i < |infos| ==> infos[i].Covers(pc)
    ensures forall j :: 0 <= j < i ==> !infos[j].Covers(pc)
  {
    if infos == [] then 0
    else if infos[0].Covers(pc) then 0
    else
      assert forall j :: 1 <= j < |infos| ==> infos[1..][j - 1] == infos[j];
      1 + FirstHit(infos[1..], pc)
  }

  /** Element `i` first, the others in their old order. */
  function ToFront<T>(s: seq<T>, i: nat): (r: seq<T>)
    requires i < |s|
    ensures |r| == |s|
  {
    [s[i]] + s[..i] + s[i + 1..]
  }

  /** A new element first; the last one goes if there are eight already. */
  function Added<T>(s: seq<T>, x: T): (r: seq<T>)
    ensures |r| <= ENTRY_COUNT || |r| == |s|
  {
    if |s| < ENTRY_COUNT then [x] + s else [x] + s[..|s| - 1]
  }

  /** An access to the cache: its `i`-th entry has the answer, or a new one is added. */
  datatype Access<T> = Hit(i: nat) | New(x: T)

  /** What the cache holds after accesses, each entry with the number of its last access. */
  function Stamped<T>(accesses: seq<Access<T>>): seq<(T, nat)> {
    if accesses == [] then []
    else
      var n := |accesses| - 1;
      var s := Stamped(accesses[..n]);
      match accesses[n]
      case Hit(i) => if i < |s| then ToFront(s[i := (s[i].0, n)], i) else s
      case New(x) => Added(s, (x, n))
  }

  /** Entries come in the order of their last accesses, the latest first. */
  lemma {:induction false} LatestFirst<T>(accesses: seq<Access<T>>)
    ensures var s := Stamped(accesses);
            && |s| <= ENTRY_COUNT
            && (forall j :: 0 <= j < |s| ==> s[j].1 < |accesses|)
            && (forall j, k :: 0 <= j < k < |s| ==> s[j].1 > s[k].1)
  {
    if accesses != [] { LatestFirst(accesses[..|accesses| - 1]); }
  }

  /** A new entry takes the place of the one least recently used, if there is no room, and of no other. */
  lemma EvictsOldest<T>(accesses: seq<Access<T>>, x: T)
    ensures var s, t := Stamped(accesses), Stamped(accesses + [New(x)]);
            && t != [] && t[0] == (x, |accesses|)
            && (forall j :: 0 <= j < |s| && s[j] !in t ==>
                  |s| == ENTRY_COUNT && forall k :: 0 <= k < |s| && k != j ==> s[k].1 > s[j].1 && s[k] in t)
            && (|s| < ENTRY_COUNT ==> |t| == |s| + 1)
  {
    LatestFirst(accesses);
    var s, t := Stamped(accesses), Stamped(accesses + [New(x)]);
    assert (accesses + [New(x)])[..|accesses|] == accesses;
    assert t == Added(s, (x, |accesses|));
    forall k | 0 <= k < |t| - 1 ensures s[k] in t { assert t[k + 1] == s[k]; }
  }

  // ---------- The lists ----------

  /** The used and the unused list are acyclic and disjoint, and together hold every entry. */
  ghost predicate ListsOk(next: seq<int>, mostRecentlyUsed: int, unused: int, used: seq<int>, free: seq<int>) {
    && |next| == ENTRY_COUNT && |used| + |free| == ENTRY_COUNT
    && Segment(next, mostRecentlyUsed, used, NULL)
    && Segment(next, unused, free, NULL)
    && Distinct(used) && Distinct(free)
    && (forall x :: x in used ==> 0 <= x < ENTRY_COUNT && x !in free)
    && (forall x :: x in free ==> 0 <= x < ENTRY_COUNT)
  }

  /** What the entries on a list hold. */
  function Pick(infos: seq<UnwindInfoSections>, list: seq<int>): (r: seq<UnwindInfoSections>)
    ensures |r| == |list|
    ensures forall k :: 0 <= k < |list| ==> r[k] == if 0 <= list[k] < |infos| then infos[list[k]] else NO_SECTIONS
  {
    seq(|list|, k requires 0 <= k < |list| => if 0 <= list[k] < |infos| then infos[list[k]] else NO_SECTIONS)
  }

  /** Moving entry `i` of the used list to its front, link by link. */
  lemma ListsAfterMove(next: seq<int>, mostRecentlyUsed: int, unused: int, used: seq<int>, free: seq<int>, i: nat)
    requires ListsOk(next, mostRecentlyUsed, unused, used, free) && 0 < i < |used|
    requires Segment(next, mostRecentlyUsed, used[..i], used[i]) && Segment(next, used[i], used[i..], NULL)
    ensures 0 <= used[i - 1] < |next| && 0 <= used[i] < |next|
    ensures ListsOk(next[used[i - 1] := next[used[i]]][used[i] := mostRecentlyUsed], used[i], unused, ToFront(used, i), free)
  {
    var prev, cur := used[i - 1], used[i];
    assert prev in used && cur in used;
    var next' := next[prev := next[cur]][cur := mostRecentlyUsed];
    assert used[i..][1..] == used[i + 1..];
    assert Around(next, mostRecentlyUsed, used[..i], cur, used[i + 1..]);
    MoveToFront(next, mostRecentlyUsed, used[..i], cur, used[i + 1..]);
    SegmentFrame(next, next', unused, free, NULL);
    ToFrontIsPermutation(used, i);
  }

  /** Moving an element to the front keeps a list without repetitions, and what is on it. */
  lemma ToFrontIsPermutation(s: seq<int>, i: nat)
    requires i < |s| && Distinct(s)
    ensures Distinct(ToFront(s, i))
    ensures forall x :: x in ToFront(s, i) <==> x in s
  {
    var t := ToFront(s, i);
    assert forall k :: 0 <= k < |t| ==> t[k] == s[if k == 0 then i else if k <= i then k - 1 else k];
    forall x | x in s ensures x in t {
      var k :| 0 <= k < |s| && s[k] == x;
      assert t[if k == i then 0 else if k < i then k + 1 else k] == x;
    }
  }

  /** Taking the first unused entry for the front of the used list. */
  lemma ListsAfterTake(next: seq<int>, mostRecentlyUsed: int, unused: int, used: seq<int>, free: seq<int>)
    requires ListsOk(next, mostRecentlyUsed, unused, used, free) && unused != NULL
    ensures free != [] && unused == free[0] && 0 <= unused < |next|
    ensures ListsOk(next[unused := mostRecentlyUsed], unused, next[unused], [unused] + used, free[1..])
  {
    assert unused in free;
    assert forall x :: x in free[1..] ==> x in free && x != unused by {
      assert forall k :: 0 <= k < |free[1..]| ==> free[1..][k] == free[k + 1];
    }
    PushFront(next, mostRecentlyUsed, used, unused);
    SegmentFrame(next, next[unused := mostRecentlyUsed], next[unused], free[1..], NULL);
  }

  /** With no unused entry, the last used one is cut off and goes to the front. */
  lemma ListsAfterEvict(next: seq<int>, mostRecentlyUsed: int, used: seq<int>, free: seq<int>)
    requires ListsOk(next, mostRecentlyUsed, NULL, used, free)
    ensures free == [] && |used| == ENTRY_COUNT
    ensures var prev, last := used[ENTRY_COUNT - 2], used[ENTRY_COUNT - 1];
            && 0 <= prev < |next| && 0 <= last < |next|
            && ListsOk(next[prev := NULL][last := mostRecentlyUsed], last, NULL, [last] + used[..ENTRY_COUNT - 1], free)
  {
    var n := ENTRY_COUNT - 1;
    var prev, last := used[n - 1], used[n];
    assert prev in used && last in used;
    SegmentPrefix(next, mostRecentlyUsed, used, n, NULL);
    SegmentRedirect(next, mostRecentlyUsed, used[..n], last, NULL);
    PushFront(next[prev := NULL], mostRecentlyUsed, used[..n], last);
    assert ToFront(used, n) == [last] + used[..n];
    ToFrontIsPermutation(used, n);
  }

  /** `current` is where element `i` of the list is, or its end. */
  ghost predicate Walked(next: seq<int>, head: int, list: seq<int>, i: nat, current: int)
    requires i <= |list|
  {
    Segment(next, head, list[..i], current) && Segment(next, current, list[i..], NULL)
  }

  lemma WalksOn(next: seq<int>, head: int, list: seq<int>, i: nat, current: int)
    requires i <= |list| && Walked(next, head, list, i, current) && current != NULL
    ensures i < |list| && current == list[i] && 0 <= current < |next|
    ensures Walked(next, head, list, i + 1, next[current])
  {
    SegmentStep(next, head, list, i, current);
  }

  lemma WalkEnds(next: seq<int>, head: int, list: seq<int>, i: nat)
    requires i <= |list| && Walked(next, head, list, i, NULL)
    ensures i == |list|
  {
  }

  class FrameHeaderCache {
    const infos: array<UnwindInfoSections>
    const next: array<int>
    var mostRecentlyUsed: int
    var unused: int
    var lastAdds: nat
    var lastSubs: nat
    /** The entries on the two lists, first to last. */
    ghost var used: seq<int>
    ghost var free: seq<int>

    /** Nothing has been looked up yet: both lists are null, though no entry is on either. */
    ghost predicate Untouched()
      reads this
    {
      infos.Length == next.Length == ENTRY_COUNT && mostRecentlyUsed == unused == NULL && lastAdds == lastSubs == ULLONG_MAX
    }

    ghost predicate Valid()
      reads this, next
    {
      infos.Length == ENTRY_COUNT && ListsOk(next[..], mostRecentlyUsed, unused, used, free)
    }

    /** What is cached, most recently used first. */
    ghost function Contents(): seq<UnwindInfoSections>
      reads this, infos
    {
      Pick(infos[..], used)
    }

    constructor ()
      ensures Untouched()
    {
      infos := new UnwindInfoSections[ENTRY_COUNT](_ => NO_SECTIONS);
      next := new int[ENTRY_COUNT](_ => NULL);
      mostRecentlyUsed, unused := NULL, NULL;
      lastAdds, lastSubs := ULLONG_MAX, ULLONG_MAX;
    }

    /** All entries go to the unused list. */
    method ResetCache()
      requires infos.Length == next.Length == ENTRY_COUNT
      modifies this`mostRecentlyUsed, this`unused, this`used, this`free, next
      ensures Valid() && used == []
    {
      mostRecentlyUsed := NULL;
      unused := 0;
      for i := 0 to ENTRY_COUNT - 1
        modifies next
        invariant forall k :: 0 <= k < i ==> next[k] == k + 1
      {
        next[i] := i + 1;
      }
      next[ENTRY_COUNT - 1] := NULL;
      used := [];
      free := [0, 1, 2, 3, 4, 5, 6, 7];
      AllUnused(next[..]);
    }

    /** Empties the cache when the loader's counters have changed. */
    method CacheNeedsReset(adds: nat, subs: nat) returns (reset: bool)
      requires infos.Length == next.Length == ENTRY_COUNT
      modifies this, next
      ensures reset <==> adds != old(lastAdds) || subs != old(lastSubs)
      ensures lastAdds == adds && lastSubs == subs
      ensures reset ==> Valid() && used == []
      ensures !reset ==> next[..] == old(next[..]) && used == old(used) && free == old(free)
                         && mostRecentlyUsed == old(mostRecentlyUsed) && unused == old(unused)
    {
      if adds != lastAdds || subs != lastSubs {
        lastAdds, lastSubs := adds, subs;
        ResetCache();
        return true;
      }
      reset := false;
    }

    /**
     Looks `pc` up. A change of the counters empties the cache. Otherwise the
     first entry that covers `pc` is a hit, and moves to the front.
     */
    method Find(adds: nat, subs: nat, pc: nat, sects: UnwindInfoSections) returns (hit: bool, found: UnwindInfoSections)
      requires Untouched() || Valid()
      modifies this, next
      ensures lastAdds == adds && lastSubs == subs && (!hit ==> found == sects)
      ensures adds != old(lastAdds) || subs != old(lastSubs) ==> Valid() && !hit && used == []
      ensures adds == old(lastAdds) && subs == old(lastSubs) && old(Untouched()) ==> Untouched() && !hit
      ensures adds == old(lastAdds) && subs == old(lastSubs) && old(Valid()) ==>
                Valid() && var was := old(Contents()); var i := FirstHit(was, pc);
                && (hit <==> i < |was|)
                && (hit ==> found == was[i] && Contents() == ToFront(was, i))
                && (!hit ==> Contents() == was)
    {
      var reset := CacheNeedsReset(adds, subs);
      found := sects;
      if reset || mostRecentlyUsed == NULL {
        return false, sects;
      }
      hit, found := FindEntry(pc, sects);
    }

    /** The walk along the list of used entries. */
    method FindEntry(pc: nat, sects: UnwindInfoSections) returns (hit: bool, found: UnwindInfoSections)
      requires Valid()
      modifies this`mostRecentlyUsed, this`used, next
      ensures Valid() && (!hit ==> found == sects)
      ensures var was := old(Contents()); var i := FirstHit(was, pc);
              && (hit <==> i < |was|)
              && (hit ==> found == was[i] && Contents() == ToFront(was, i))
              && (!hit ==> Contents() == was)
    {
      var current, previous, i := SearchUsed(pc);
      if current == NULL {
        return false, sects;
      }
      found := infos[current];
      if previous != NULL {
        Relink(previous, current, i);
      } else {
        assert ToFront(Contents(), 0) == Contents();
      }
      hit := true;
    }

    /** Follows the links to the first entry that covers `pc`, remembering the one before it. */
    method SearchUsed(pc: nat) returns (current: int, previous: int, ghost i: nat)
      requires Valid()
      ensures i == FirstHit(Contents(), pc) && (current == NULL <==> i == |used|)
      ensures i < |used| ==> current == used[i] && 0 <= current < ENTRY_COUNT
      ensures previous == (if i == 0 then NULL else used[i - 1]) && (previous == NULL <==> i == 0)
      ensures Segment(next[..], mostRecentlyUsed, used[..i], current) && Segment(next[..], current, used[i..], NULL)
    {
      current, previous := mostRecentlyUsed, NULL;
      i := 0;
      assert used[..0] == [] && used[0..] == used;
      while current != NULL
        invariant i <= |used| && Walked(next[..], mostRecentlyUsed, used, i, current)
        invariant previous == (if i == 0 then NULL else used[i - 1]) && (previous == NULL <==> i == 0)
        invariant FirstHit(Contents(), pc) >= i
        decreases |used| - i
      {
        WalksOn(next[..], mostRecentlyUsed, used, i, current);
        assert Contents()[i] == infos[current];
        if infos[current].Covers(pc) {
          return;
        }
        assert FirstHit(Contents(), pc) != i;
        previous := current;
        current := next[current];
        i := i + 1;
      }
      WalkEnds(next[..], mostRecentlyUsed, used, i);
    }

    /** Takes entry `i` of the used list out of its place and puts it in front. */
    method Relink(previous: int, current: int, ghost i: nat)
      requires Valid() && 0 < i < |used| && previous == used[i - 1] && current == used[i]
      requires Segment(next[..], mostRecentlyUsed, used[..i], current) && Segment(next[..], current, used[i..], NULL)
      modifies this`mostRecentlyUsed, this`used, next
      ensures Valid() && used == ToFront(old(used), i)
      ensures Contents() == ToFront(old(Contents()), i)
    {
      ListsAfterMove(next[..], mostRecentlyUsed, unused, used, free, i);
      PickToFront(infos[..], used, i);
      next[previous] := next[current];
      next[current] := mostRecentlyUsed;
      assert next[..] == old(next[..])[previous := old(next[current])][current := mostRecentlyUsed];
      mostRecentlyUsed := current;
      used := ToFront(used, i);
    }

    /**
     Puts new sections in front: in an unused entry if there is one, else in
     place of the least recently used.
     */
    method Add(uis: UnwindInfoSections)
      requires Valid()
      modifies this`mostRecentlyUsed, this`unused, this`used, this`free, next, infos
      ensures Valid() && Contents() == Added(old(Contents()), uis)
    {
      var current;
      if unused != NULL {
        ListsAfterTake(next[..], mostRecentlyUsed, unused, used, free);
        current := unused;
        unused := next[unused];
        PickAfterAdd(infos[..], used, current, uis);
        used, free := [current] + used, free[1..];
      } else {
        ListsAfterEvict(next[..], mostRecentlyUsed, used, free);
        var previous;
        current, previous := FindLast();
        next[previous] := NULL;
        PickAfterAdd(infos[..], used[..ENTRY_COUNT - 1], current, uis);
        used := [current] + used[..ENTRY_COUNT - 1];
      }
      infos[current] := uis;
      assert infos[..] == old(infos[..])[current := uis];
      next[current] := mostRecentlyUsed;
      mostRecentlyUsed := current;
      assert next[..] == (if old(unused) != NULL then old(next[..]) else old(next[..])[old(used)[ENTRY_COUNT - 2] := NULL])
                         [current := old(mostRecentlyUsed)];
    }

    /** The last used entry, and the one before it. */
    method FindLast() returns (current: int, previous: int)
      requires Valid() && unused == NULL && |used| == ENTRY_COUNT
      ensures current == used[ENTRY_COUNT - 1] && previous == used[ENTRY_COUNT - 2]
    {
      current, previous := mostRecentlyUsed, NULL;
      ghost var i := 0;
      assert 0 <= current < next.Length;
      while next[current] != NULL
        invariant 0 <= i < |used| && current == used[i] && 0 <= current < next.Length
        invariant i > 0 ==> previous == used[i - 1]
        invariant Segment(next[..], mostRecentlyUsed, used[..i], current) && Segment(next[..], current, used[i..], NULL)
        decreases |used| - i
      {
        SegmentStep(next[..], mostRecentlyUsed, used, i, current);
        previous := current;
        current := next[current];
        i := i + 1;
        assert used[i..][0] == used[i];
      }
      LastPointsNowhere(next[..], current, used[i..]);
    }
  }

  lemma LastPointsNowhere(next: seq<int>, head: int, list: seq<int>)
    requires Segment(next, head, list, NULL) && list != [] && 0 <= head < |next| && next[head] == NULL
    ensures |list| == 1
  {
    assert Segment(next, next[head], list[1..], NULL);
  }

  lemma PickToFront(infos: seq<UnwindInfoSections>, list: seq<int>, i: nat)
    requires i < |list|
    ensures Pick(infos, ToFront(list, i)) == ToFront(Pick(infos, list), i)
  {
    var t := ToFront(list, i);
    assert forall k :: 0 <= k < |t| ==> t[k] == list[if k == 0 then i else if k <= i then k - 1 else k];
  }

  lemma PickAfterAdd(infos: seq<UnwindInfoSections>, rest: seq<int>, current: int, uis: UnwindInfoSections)
    requires 0 <= current < |infos| && current !in rest
    ensures Pick(infos[current := uis], [current] + rest) == [uis] + Pick(infos, rest)
  {
    forall k | 0 <= k < |rest| ensures rest[k] != current { assert rest[k] in rest; }
    assert forall k :: 1 <= k <= |rest| ==> ([current] + rest)[k] == rest[k - 1];
  }

  /** Links that each point to the next entry, the last one to null, are one list of all entries, none of them used. */
  lemma AllUnused(next: seq<int>)
    requires |next| == ENTRY_COUNT && next[ENTRY_COUNT - 1] == NULL
    requires forall k :: 0 <= k < ENTRY_COUNT - 1 ==> next[k] == k + 1
    ensures ListsOk(next, NULL, 0, [], [0, 1, 2, 3, 4, 5, 6, 7])
  {
    AllInOrder(next, 8);
  }

  lemma {:induction false} AllInOrder(next: seq<int>, i: nat)
    requires |next| == ENTRY_COUNT && i <= ENTRY_COUNT
    requires forall k :: 0 <= k < ENTRY_COUNT - 1 ==> next[k] == k + 1
    requires next[ENTRY_COUNT - 1] == NULL
    ensures i > 0 ==> Segment(next, ENTRY_COUNT - i, [0, 1, 2, 3, 4, 5, 6, 7][ENTRY_COUNT - i..], NULL)
  {
    if i > 0 {
      AllInOrder(next, i - 1);
      var all := [0, 1, 2, 3, 4, 5, 6, 7];
      assert all[ENTRY_COUNT - i..][1..] == all[ENTRY_COUNT - (i - 1)..];
    }
  }
}
