/** The hash table of the instrumentation runtime: tables of slots, rewritten in place. */
module HashTable {
  import opened MixedRadix
  import opened HashTrie
  import opened Words
  import opened Wrappers

  class SimpleHashTable {
    const sizes: Sizes
    /** All tables, in the order they were allocated; none before the first key is added. */
    var tables: seq<array<MapEntry>>
    ghost var places: seq<Place>

    ghost function Pool(): (p: seq<Table>)
      reads this, tables
      ensures |p| == |tables| && forall t :: 0 <= t < |tables| ==> p[t] == tables[t][..]
    {
      seq(|tables|, t requires 0 <= t < |tables| reads this, tables => tables[t][..])
    }

    ghost predicate Valid()
      reads this, tables
    {
      && Trie(sizes, Pool(), places)
      && forall t, u :: 0 <= t < u < |tables| ==> tables[t] != tables[u]
    }

    /** The value of `key`, if it has been added. */
    ghost function Value(key: nat): Option<nat>
      reads this, tables
      requires Valid()
    {
      ValueOf(sizes, Pool(), places, key)
    }

    constructor (initialSize: nat, incSize: nat)
      requires initialSize >= 2 && incSize >= 2
      ensures Valid() && sizes == Sizes(initialSize, incSize) && fresh(tables) && forall key :: Value(key) == None
    {
      sizes := Sizes(initialSize, incSize);
      tables, places := [], [];
    }

    /** Allocates the first table and puts `key` in it. */
    method FirstAllocation(key: nat) returns (t: nat, s: nat)
      requires Valid() && tables == [] && ValidKey(key)
      modifies this`tables, this`places
      ensures Valid() && fresh(tables) && tables != []
      ensures Value(key) == Some(0) && forall k :: ValidKey(k) && k != key ==> Value(k) == None
      ensures (t, s) == Find(sizes, Pool(), places, 0, key) && tables[t][s] == MapEntry(key, 0)
    {
      FirstTable(sizes, key);
      var root := new MapEntry[sizes.init](_ => MapEntry(VACANT, 0));
      t, s := 0, key % sizes.init;
      root[s] := root[s].(key := key);
      tables := [root];
      places := [ROOT];
      assert Pool()[0] == FreshTable(sizes.init, s, MapEntry(key, 0));
      assert Pool() == [FreshTable(sizes.init, s, MapEntry(key, 0))];
    }

    /**
     Finds the slot of `key` below table `t`, adding the key if it is not there;
     an entry in the way moves to a new follow-up table.
     */
    method GetEntry(t: nat, key: nat, selector: nat, curLevel: nat) returns (rt: nat, rs: nat)
      requires Valid() && t < |tables| && ValidKey(key) && sizes.Routes(places[t], key)
      requires curLevel == places[t].level && selector == key / sizes.W(curLevel)
      modifies this`tables, this`places, tables
      ensures Valid() && Found(sizes, old(Pool()), old(places), Pool(), places, t, key, rt, rs)
      ensures old(tables) <= tables && forall u :: |old(tables)| <= u < |tables| ==> fresh(tables[u])
      decreases sizes.Room(places[t]), 1
    {
      ghost var pool, at := Pool(), places;
      assert TableOk(sizes, pool, places, t);
      var s, remainder := NextDigit(selector, curLevel, places[t], key);
      var entry := tables[t][s];
      assert SlotOk(sizes, pool, places, places[t], s, entry);

      if entry.key == key {
        FoundHit(sizes, pool, places, t, key);
        return t, s;
      }
      if entry.key == VACANT {
        FoundVacant(sizes, pool, places, t, key);
        tables[t][s] := entry.(key := key);
        assert Pool() == SetSlot(pool, t, s, entry.(key := key));
        return t, s;
      }
      DescendRoutes(sizes, places[t], key);
      if entry.IsFollowUp() {
        assert TableOk(sizes, pool, places, entry.Next());
        ChildIsSmaller(sizes, places[t], s);
        rt, rs := GetEntry(entry.Next(), key, remainder, curLevel + 1);
        FoundFromFollowUp(sizes, pool, at, Pool(), places, t, key, rt, rs);
        return;
      }
      rt, rs := GetBelowConflict(t, key, s, remainder, curLevel);
    }

    /** Takes the digit of one level off a selector. */
    method NextDigit(selector: nat, curLevel: nat, ghost p: Place, ghost key: nat) returns (s: nat, remainder: nat)
      requires sizes.Valid() && p.level == curLevel && sizes.W(curLevel) > 0 && selector == key / sizes.W(curLevel)
      ensures s == sizes.Slot(p, key) && sizes.W(curLevel + 1) > 0 && remainder == key / sizes.W(curLevel + 1)
    {
      var numEntries := if curLevel == 0 then sizes.init else sizes.inc;
      SlotIs(sizes, p, key, numEntries);
      remainder := selector / numEntries;
      s := selector % numEntries;
    }

    /** Another key's entry is in the slot of `key`: it moves one level down, and the search goes on there. */
    method GetBelowConflict(t: nat, key: nat, s: nat, remainder: nat, curLevel: nat) returns (rt: nat, rs: nat)
      requires Valid() && t < |tables| && ValidKey(key) && sizes.Routes(places[t], key) && s == sizes.Slot(places[t], key)
      requires s < tables[t].Length && tables[t][s].IsEntry() && tables[t][s].key != key
      requires curLevel == places[t].level && sizes.W(curLevel + 1) > 0 && remainder == key / sizes.W(curLevel + 1)
      modifies this`tables, this`places, tables
      ensures Valid() && Found(sizes, old(Pool()), old(places), Pool(), places, t, key, rt, rs)
      ensures old(tables) <= tables && forall u :: |old(tables)| <= u < |tables| ==> fresh(tables[u])
      decreases sizes.Room(places[t]), 0
    {
      ghost var pool, at := Pool(), places;
      SplitKeeps(sizes, pool, at, t, key);
      var next := |tables|;
      MoveToNewTable(t, s, curLevel);
      rt, rs := GetEntry(next, key, remainder, curLevel + 1);
      FoundAfterSplit(sizes, pool, at, Pool(), places, t, key, rt, rs);
    }

    /** Moves the entry in slot `s` of `t` to a new follow-up table. */
    method MoveToNewTable(t: nat, s: nat, curLevel: nat)
      requires Valid() && t < |tables| && s < tables[t].Length && tables[t][s].IsEntry()
      requires curLevel == places[t].level
      requires Trie(sizes, Split(sizes, Pool(), places, t, s).0, Split(sizes, Pool(), places, t, s).1)
      modifies this`tables, this`places, tables[t]
      ensures Valid() && (Pool(), places) == Split(sizes, old(Pool()), old(places), t, s)
      ensures |tables| == |old(tables)| + 1 && old(tables) <= tables && fresh(tables[|old(tables)|])
    {
      ghost var pool := Pool();
      var entry := tables[t][s];
      var nextLevelTbl := new MapEntry[sizes.inc](_ => MapEntry(VACANT, 0));
      var curEntrySelector := SelectorAt(entry.key, curLevel);
      curEntrySelector := curEntrySelector % sizes.inc;
      nextLevelTbl[curEntrySelector] := entry;
      tables[t][s] := entry.(key := FOLLOW_UP + |tables|);
      places := places + [sizes.Child(places[t], s)];
      tables := tables + [nextLevelTbl];
      assert Pool()[|pool|] == FreshTable(sizes.inc, curEntrySelector, entry);
      assert Pool() == Split(sizes, pool, old(places), t, s).0;
    }

    /** Divides the digits up to `curLevel` off a key, one after the other. */
    method SelectorAt(key: nat, curLevel: nat) returns (selector: nat)
      requires sizes.Valid()
      ensures sizes.W(curLevel + 1) > 0 && selector == key / sizes.W(curLevel + 1)
    {
      WeightPositive(sizes.init, sizes.inc, 1);
      selector := key / sizes.init;
      for i := 0 to curLevel
        invariant sizes.W(i + 1) > 0 && selector == key / sizes.W(i + 1)
      {
        NextResidue(sizes.init, sizes.inc, i + 1, key);
        selector := selector / sizes.inc;
      }
    }

    /** The slot of `key`, added if necessary. */
    method GetOrAllocEntry(key: nat) returns (t: nat, s: nat)
      requires Valid() && ValidKey(key)
      modifies this`tables, this`places, tables
      ensures Valid() && tables != [] && (t, s) == Find(sizes, Pool(), places, 0, key)
      ensures Value(key) == Some(OrZero(old(Value(key)))) && tables[t][s] == MapEntry(key, OrZero(old(Value(key))))
      ensures forall k :: ValidKey(k) && k != key ==> Value(k) == old(Value(k))
      ensures old(tables) <= tables && forall u :: |old(tables)| <= u < |tables| ==> fresh(tables[u])
    {
      if tables == [] {
        t, s := FirstAllocation(key);
      } else {
        RootRoutes(sizes, key);
        t, s := GetEntry(0, key, key, 0);
        FindIsLookup(sizes, Pool(), places, 0, key);
        forall k | ValidKey(k) && k != key ensures Value(k) == old(Value(k)) { RootRoutes(sizes, k); }
      }
    }

    /** Adds one to the value of `key`, which starts at zero; all other values stay. */
    method IncrementVal(key: nat)
      requires Valid() && ValidKey(key)
      modifies this`tables, this`places, tables
      ensures Valid()
      ensures Value(key) == Some((OrZero(old(Value(key))) + 1) % TWO64)
      ensures forall k :: ValidKey(k) && k != key ==> Value(k) == old(Value(k))
      ensures old(tables) <= tables && forall u :: |old(tables)| <= u < |tables| ==> fresh(tables[u])
    {
      var t, s := GetOrAllocEntry(key);
      assert tables[t] in old(tables) || fresh(tables[t]);
      SetVal(t, s, key, (tables[t][s].val + 1) % TWO64);
    }

    /** Stores a value in the slot of `key`. */
    method SetVal(t: nat, s: nat, key: nat, val: nat)
      requires Valid() && ValidKey(key) && Value(key).Some? && (t, s) == Find(sizes, Pool(), places, 0, key)
      modifies tables[t]
      ensures Valid() && Value(key) == Some(val)
      ensures forall k :: ValidKey(k) && k != key ==> Value(k) == old(Value(k))
    {
      ghost var pool := Pool();
      RootRoutes(sizes, key);
      SetValue(sizes, pool, places, 0, key, val);
      tables[t][s] := tables[t][s].(val := val);
      assert Pool() == SetSlot(pool, t, s, pool[t][s].(val := val));
      forall k | ValidKey(k) && k != key ensures Value(k) == old(Value(k)) { RootRoutes(sizes, k); }
    }

    /** Visits every element below table `t`. */
    method ForEachIn(t: nat) returns (visited: seq<MapEntry>)
      requires Valid() && t < |tables|
      ensures visited == Visit(sizes, Pool(), places, t, tables[t].Length)
      decreases sizes.Room(places[t])
    {
      assert TableOk(sizes, Pool(), places, t);
      visited := [];
      for i := 0 to tables[t].Length
        invariant visited == Visit(sizes, Pool(), places, t, i)
      {
        var entry := tables[t][i];
        assert SlotOk(sizes, Pool(), places, places[t], i, entry);
        if entry.key == VACANT {
        } else if entry.IsFollowUp() {
          assert TableOk(sizes, Pool(), places, entry.Next());
          ChildIsSmaller(sizes, places[t], i);
          var below := ForEachIn(entry.Next());
          visited := visited + below;
        } else {
          visited := visited + [entry];
        }
      }
    }

    /** Visits every element of the table once: each key that has been added, with its value. */
    method ForEachElement() returns (visited: seq<MapEntry>)
      requires Valid()
      ensures DistinctKeys(visited) && forall e :: e in visited ==> ValidKey(e.key)
      ensures forall key: nat, val: nat :: ValidKey(key) ==> (MapEntry(key, val) in visited <==> Value(key) == Some(val))
    {
      if tables == [] { return []; }
      visited := ForEachIn(0);
      VisitIsExact(sizes, Pool(), places);
    }
  }
}
