/**
 The chained tables of the runtime's hash table, on values: a trie whose paths
 are the mixed-radix digits of the keys. A pointer to a table is its position
 in the pool of all tables.
 */
module HashTrie {
  import opened MixedRadix
  import opened Wrappers

  const VACANT: nat := 0
  const FOLLOW_UP: nat := 0x8000_0000_0000_0000

  /** A slot: vacant, an entry for a key, or a follow-up table if the key has the marker bit. */
  datatype MapEntry = MapEntry(key: nat, val: nat) {
    predicate IsFollowUp() { key >= FOLLOW_UP }
    predicate IsEntry() { VACANT < key < FOLLOW_UP }
    function Next(): nat
      requires IsFollowUp()
    {
      key - FOLLOW_UP
    }
  }

  predicate ValidKey(key: nat) { VACANT < key < FOLLOW_UP }

  type Table = seq<MapEntry>

  /** Where a table hangs in the trie: its level, and what all keys in it leave modulo the level's weight. */
  datatype Place = Place(level: nat, residue: nat)

  /** Sizes of the first table and of all others. */
  datatype Sizes = Sizes(init: nat, inc: nat) {
    predicate Valid() { init >= 2 && inc >= 2 }
    function W(level: nat): nat { Weight(init, inc, level) }
    function R(level: nat): nat { Radix(init, inc, level) }

    function Slot(p: Place, key: nat): (s: nat)
      requires Valid()
      ensures s < R(p.level)
    {
      Digit(init, inc, p.level, key)
    }

    function Child(p: Place, s: nat): Place { Place(p.level + 1, p.residue + W(p.level) * s) }

    /** `key` belongs somewhere below place `p`. */
    predicate Routes(p: Place, key: nat) { W(p.level) > 0 && key % W(p.level) == p.residue }

    predicate Proper(p: Place) { p.residue < W(p.level) < FOLLOW_UP }

    /** Shrinks from a table to its follow-up tables. */
    function Room(p: Place): nat {
      if Proper(p) then FOLLOW_UP - W(p.level) else 0
    }
  }

  const ROOT: Place := Place(0, 0)

  lemma RootRoutes(z: Sizes, key: nat)
    ensures z.Routes(ROOT, key) && z.Proper(ROOT)
  {
  }

  lemma DescendRoutes(z: Sizes, p: Place, key: nat)
    requires z.Valid() && z.Routes(p, key)
    ensures z.Routes(z.Child(p, z.Slot(p, key)), key)
  {
    NextResidue(z.init, z.inc, p.level, key);
  }

  /** The slot of a key as a remainder, and what is left for the next level as a quotient. */
  lemma SlotIs(z: Sizes, p: Place, key: nat, numEntries: nat)
    requires z.Valid() && numEntries == if p.level == 0 then z.init else z.inc
    ensures z.W(p.level) > 0 && z.W(p.level + 1) > 0
    ensures key / z.W(p.level) % numEntries == z.Slot(p, key) && key / z.W(p.level) / numEntries == key / z.W(p.level + 1)
  {
    NextResidue(z.init, z.inc, p.level, key);
  }

  lemma AscendRoutes(z: Sizes, p: Place, s: nat, key: nat)
    requires z.Valid() && z.Proper(p) && z.Routes(z.Child(p, s), key)
    ensures z.Routes(p, key) && z.Slot(p, key) == s
  {
    var w := z.W(p.level);
    NextResidue(z.init, z.inc, p.level, key);
    QuotientUnique(key % z.W(p.level + 1), w, s, p.residue);
    QuotientUnique(key % z.W(p.level + 1), w, z.Slot(p, key), key % w);
  }

  lemma ChildIsSmaller(z: Sizes, p: Place, s: nat)
    requires z.Valid() && z.Proper(p) && z.Proper(z.Child(p, s))
    ensures z.Room(z.Child(p, s)) < z.Room(p)
  {
    WeightGrows(z.init, z.inc, p.level);
  }

  /** Where two different keys both belong, there is room for another level. */
  lemma CollisionLeavesRoom(z: Sizes, p: Place, key: nat, key': nat)
    requires z.Valid() && z.Routes(p, key) && z.Routes(p, key') && key != key' && ValidKey(key) && ValidKey(key')
    ensures z.Proper(p)
  {
    SameResidue(z.init, z.inc, p.level, key, key');
  }

  // ---------- The invariant ----------

  ghost predicate SlotOk(z: Sizes, pool: seq<Table>, places: seq<Place>, p: Place, s: nat, e: MapEntry)
    requires |places| == |pool|
  {
    && (e.key == VACANT ==> e.val == 0)
    && (e.IsEntry() ==> z.Routes(z.Child(p, s), e.key))
    && (e.IsFollowUp() ==> e.Next() < |pool| && places[e.Next()] == z.Child(p, s))
  }

  ghost predicate TableOk(z: Sizes, pool: seq<Table>, places: seq<Place>, t: nat)
    requires |places| == |pool| && t < |pool|
  {
    && z.Proper(places[t]) && |pool[t]| == z.R(places[t].level)
    && forall s :: 0 <= s < |pool[t]| ==> SlotOk(z, pool, places, places[t], s, pool[t][s])
  }

  ghost predicate Trie(z: Sizes, pool: seq<Table>, places: seq<Place>) {
    && z.Valid() && |places| == |pool|
    && (pool != [] ==> places[0] == ROOT)
    && forall t :: 0 <= t < |pool| ==> TableOk(z, pool, places, t)
  }

  // ---------- The map it stands for ----------

  /** The value of `key` below table `t`. */
  ghost function Lookup(z: Sizes, pool: seq<Table>, places: seq<Place>, t: nat, key: nat): Option<nat>
    requires Trie(z, pool, places) && t < |pool|
    decreases z.Room(places[t])
  {
    assert TableOk(z, pool, places, t);
    var s := z.Slot(places[t], key);
    var e := pool[t][s];
    assert SlotOk(z, pool, places, places[t], s, e);
    if e.key == VACANT then None
    else if e.IsFollowUp() then
      assert TableOk(z, pool, places, e.Next());
      ChildIsSmaller(z, places[t], s);
      Lookup(z, pool, places, e.Next(), key)
    else if e.key == key then Some(e.val)
    else None
  }

  /** The value of `key` in the whole table; nothing before the first allocation. */
  ghost function ValueOf(z: Sizes, pool: seq<Table>, places: seq<Place>, key: nat): Option<nat>
    requires Trie(z, pool, places)
  {
    if pool == [] then None else Lookup(z, pool, places, 0, key)
  }

  // ---------- Changing one slot ----------

  /** `pool'` is `pool` with slot `s` of table `t` replaced, and perhaps new tables. */
  ghost predicate OneSlot(pool: seq<Table>, pool': seq<Table>, t: nat, s: nat) {
    && t < |pool| <= |pool'| && s < |pool[t]| == |pool'[t]|
    && (forall u :: 0 <= u < |pool| && u != t ==> pool'[u] == pool[u])
    && (forall r :: 0 <= r < |pool[t]| && r != s ==> pool'[t][r] == pool[t][r])
  }

  /** A key that does not go through the slot, or whose value below it stays, keeps its value everywhere. */
  lemma {:induction false} OneSlotKeeps(z: Sizes, pool: seq<Table>, places: seq<Place>, pool': seq<Table>, places': seq<Place>,
                                        t: nat, s: nat, u: nat, key: nat)
    requires Trie(z, pool, places) && Trie(z, pool', places') && places <= places' && OneSlot(pool, pool', t, s)
    requires u < |pool| && z.Routes(places[u], key)
    requires z.Routes(places[t], key) && z.Slot(places[t], key) == s ==>
               Lookup(z, pool', places', t, key) == Lookup(z, pool, places, t, key)
    ensures Lookup(z, pool', places', u, key) == Lookup(z, pool, places, u, key)
    decreases z.Room(places[u])
  {
    assert TableOk(z, pool, places, u) && TableOk(z, pool', places', u);
    var r := z.Slot(places[u], key);
    if !(u == t && r == s) {
      var e := pool[u][r];
      assert pool'[u][r] == e;
      assert SlotOk(z, pool, places, places[u], r, e);
      if e.IsFollowUp() {
        assert TableOk(z, pool, places, e.Next());
        DescendRoutes(z, places[u], key);
        ChildIsSmaller(z, places[u], r);
        OneSlotKeeps(z, pool, places, pool', places', t, s, e.Next(), key);
      }
    }
  }

  /** Where a search for `key` below table `t` ends: the first slot on its path that is no follow-up. */
  ghost function Find(z: Sizes, pool: seq<Table>, places: seq<Place>, t: nat, key: nat): (r: (nat, nat))
    requires Trie(z, pool, places) && t < |pool|
    ensures r.0 < |pool| && r.1 < |pool[r.0]| && !pool[r.0][r.1].IsFollowUp()
    decreases z.Room(places[t])
  {
    assert TableOk(z, pool, places, t);
    var s := z.Slot(places[t], key);
    var e := pool[t][s];
    assert SlotOk(z, pool, places, places[t], s, e);
    if e.IsFollowUp() then
      assert TableOk(z, pool, places, e.Next());
      ChildIsSmaller(z, places[t], s);
      Find(z, pool, places, e.Next(), key)
    else (t, s)
  }

  /** A search ends where the key routes to, at or below where it starts, and the value is what it finds there. */
  lemma {:induction false} FindIsLookup(z: Sizes, pool: seq<Table>, places: seq<Place>, t: nat, key: nat)
    requires Trie(z, pool, places) && t < |pool| && ValidKey(key) && z.Routes(places[t], key)
    ensures var (rt, rs) := Find(z, pool, places, t, key);
            && z.Routes(places[rt], key) && rs == z.Slot(places[rt], key) && places[t].level <= places[rt].level
            && Lookup(z, pool, places, t, key) == if pool[rt][rs].key == key then Some(pool[rt][rs].val) else None
    decreases z.Room(places[t])
  {
    assert TableOk(z, pool, places, t);
    var s := z.Slot(places[t], key);
    var e := pool[t][s];
    assert SlotOk(z, pool, places, places[t], s, e);
    if e.IsFollowUp() {
      assert TableOk(z, pool, places, e.Next());
      DescendRoutes(z, places[t], key);
      ChildIsSmaller(z, places[t], s);
      FindIsLookup(z, pool, places, e.Next(), key);
    }
  }

  /** Replacing one slot and adding tables keeps the invariant if what is new is in order. */
  lemma OneSlotKeepsTrie(z: Sizes, pool: seq<Table>, places: seq<Place>, pool': seq<Table>, places': seq<Place>, t: nat, s: nat)
    requires Trie(z, pool, places) && OneSlot(pool, pool', t, s) && places <= places' && |places'| == |pool'|
    requires SlotOk(z, pool', places', places'[t], s, pool'[t][s])
    requires forall u :: |pool| <= u < |pool'| ==> TableOk(z, pool', places', u)
    ensures Trie(z, pool', places')
  {
    forall u | 0 <= u < |pool'| ensures TableOk(z, pool', places', u) {
      if u < |pool| {
        assert TableOk(z, pool, places, u);
        forall r | 0 <= r < |pool'[u]| ensures SlotOk(z, pool', places', places'[u], r, pool'[u][r]) {
          if !(u == t && r == s) {
            assert SlotOk(z, pool, places, places[u], r, pool[u][r]);
            assert pool'[u][r] == pool[u][r];
          }
        }
      }
    }
  }

  // ---------- The three changes the code makes ----------

  function SetSlot(pool: seq<Table>, t: nat, s: nat, e: MapEntry): (r: seq<Table>)
    requires t < |pool| && s < |pool[t]|
    ensures OneSlot(pool, r, t, s) && r[t][s] == e && |r| == |pool|
  {
    pool[t := pool[t][s := e]]
  }

  /** A vacant slot becomes the entry of a key that routes to it: the key gets value zero, other keys keep theirs. */
  lemma FillVacant(z: Sizes, pool: seq<Table>, places: seq<Place>, t: nat, key: nat)
    requires Trie(z, pool, places) && t < |pool| && ValidKey(key) && z.Routes(places[t], key)
    requires z.Slot(places[t], key) < |pool[t]| && pool[t][z.Slot(places[t], key)].key == VACANT
    ensures var s := z.Slot(places[t], key);
            var pool' := SetSlot(pool, t, s, pool[t][s].(key := key));
            && Trie(z, pool', places)
            && Lookup(z, pool, places, t, key) == None && Lookup(z, pool', places, t, key) == Some(0)
            && Find(z, pool', places, t, key) == (t, s)
            && KeepsOthers(z, pool, places, pool', places, key)
  {
    var s := z.Slot(places[t], key);
    var pool' := SetSlot(pool, t, s, pool[t][s].(key := key));
    assert TableOk(z, pool, places, t);
    assert SlotOk(z, pool, places, places[t], s, pool[t][s]);
    DescendRoutes(z, places[t], key);
    OneSlotKeepsTrie(z, pool, places, pool', places, t, s);
    forall u, k | 0 <= u < |pool| && k != key && ValidKey(k) && z.Routes(places[u], k)
      ensures Lookup(z, pool', places, u, k) == Lookup(z, pool, places, u, k)
    {
      OneSlotKeeps(z, pool, places, pool', places, t, s, u, k);
    }
  }

  /** Every other key keeps its value, below every table that was there. */
  ghost predicate KeepsOthers(z: Sizes, pool: seq<Table>, places: seq<Place>, pool': seq<Table>, places': seq<Place>, key: nat)
    requires Trie(z, pool, places) && Trie(z, pool', places') && |pool| <= |pool'|
  {
    forall u, k :: 0 <= u < |pool| && k != key && ValidKey(k) && z.Routes(places[u], k) ==>
      Lookup(z, pool', places', u, k) == Lookup(z, pool, places, u, k)
  }

  /** A new value in the slot a search for `key` ends at changes the value of `key` and nothing else. */
  lemma SetValue(z: Sizes, pool: seq<Table>, places: seq<Place>, t: nat, key: nat, val: nat)
    requires Trie(z, pool, places) && t < |pool| && ValidKey(key) && z.Routes(places[t], key)
    requires Lookup(z, pool, places, t, key).Some?
    ensures var (rt, rs) := Find(z, pool, places, t, key);
            var pool' := SetSlot(pool, rt, rs, pool[rt][rs].(val := val));
            && pool[rt][rs].key == key
            && Trie(z, pool', places)
            && Lookup(z, pool', places, t, key) == Some(val)
            && KeepsOthers(z, pool, places, pool', places, key)
  {
    FindIsLookup(z, pool, places, t, key);
    var (rt, rs) := Find(z, pool, places, t, key);
    var pool' := SetSlot(pool, rt, rs, pool[rt][rs].(val := val));
    assert TableOk(z, pool, places, rt);
    assert SlotOk(z, pool, places, places[rt], rs, pool[rt][rs]);
    OneSlotKeepsTrie(z, pool, places, pool', places, rt, rs);
    FindIsSame(z, pool, places, pool', rt, rs, t, key);
    FindIsLookup(z, pool', places, t, key);
    forall u, k | 0 <= u < |pool| && k != key && ValidKey(k) && z.Routes(places[u], k)
      ensures Lookup(z, pool', places, u, k) == Lookup(z, pool, places, u, k)
    {
      OneSlotKeeps(z, pool, places, pool', places, rt, rs, u, k);
    }
  }

  /** Searches look at keys only. */
  lemma {:induction false} FindIsSame(z: Sizes, pool: seq<Table>, places: seq<Place>, pool': seq<Table>, t: nat, s: nat, u: nat, key: nat)
    requires Trie(z, pool, places) && Trie(z, pool', places) && OneSlot(pool, pool', t, s) && |pool'| == |pool|
    requires pool'[t][s].key == pool[t][s].key && u < |pool|
    ensures Find(z, pool', places, u, key) == Find(z, pool, places, u, key)
    decreases z.Room(places[u])
  {
    assert TableOk(z, pool, places, u) && TableOk(z, pool', places, u);
    var r := z.Slot(places[u], key);
    var e := pool[u][r];
    assert pool'[u][r].key == e.key;
    assert SlotOk(z, pool, places, places[u], r, e);
    if e.IsFollowUp() {
      assert TableOk(z, pool, places, e.Next());
      ChildIsSmaller(z, places[u], r);
      FindIsSame(z, pool, places, pool', t, s, e.Next(), key);
    }
  }

  /** A table of vacant slots but for one. */
  function FreshTable(n: nat, s: nat, e: MapEntry): (r: Table)
    requires s < n
    ensures |r| == n && r[s] == e && forall i :: 0 <= i < n && i != s ==> r[i] == MapEntry(VACANT, 0)
  {
    seq(n, _ => MapEntry(VACANT, 0))[s := e]
  }

  /** The pool after a conflict in slot `s` of `t`: its entry moves to a new table, which the slot then points to. */
  ghost function Split(z: Sizes, pool: seq<Table>, places: seq<Place>, t: nat, s: nat): (r: (seq<Table>, seq<Place>))
    requires z.Valid() && |places| == |pool| && t < |pool| && s < |pool[t]|
    ensures OneSlot(pool, r.0, t, s) && |r.0| == |r.1| == |pool| + 1 && places <= r.1
  {
    var e := pool[t][s];
    var p := z.Child(places[t], s);
    (SetSlot(pool, t, s, e.(key := FOLLOW_UP + |pool|)) + [FreshTable(z.R(p.level), z.Slot(p, e.key), e)], places + [p])
  }

  /** Making a new level for two keys that collide changes no value at all. */
  lemma SplitKeeps(z: Sizes, pool: seq<Table>, places: seq<Place>, t: nat, key: nat)
    requires Trie(z, pool, places) && t < |pool| && ValidKey(key) && z.Routes(places[t], key)
    requires var s := z.Slot(places[t], key); s < |pool[t]| && pool[t][s].IsEntry() && pool[t][s].key != key
    ensures var s := z.Slot(places[t], key);
            var (pool', places') := Split(z, pool, places, t, s);
            && Trie(z, pool', places') && z.Routes(places'[|pool|], key)
            && pool'[t][s].IsFollowUp() && pool'[t][s].Next() == |pool|
            && Lookup(z, pool', places', |pool|, key) == Lookup(z, pool, places, t, key) == None
            && KeepsOthers(z, pool, places, pool', places', VACANT)
            && z.Room(places'[|pool|]) < z.Room(places[t])
  {
    var s := z.Slot(places[t], key);
    var (pool', places') := Split(z, pool, places, t, s);
    var e, p, n := pool[t][s], z.Child(places[t], s), |pool|;
    assert TableOk(z, pool, places, t);
    assert SlotOk(z, pool, places, places[t], s, e);
    DescendRoutes(z, places[t], key);
    CollisionLeavesRoom(z, p, key, e.key);
    ChildIsSmaller(z, places[t], s);
    DescendRoutes(z, p, e.key);
    SplitIsTrie(z, pool, places, t, s);
    assert TableOk(z, pool', places', n) && TableOk(z, pool', places', t);
    forall u, k | 0 <= u < |pool| && ValidKey(k) && z.Routes(places[u], k)
      ensures Lookup(z, pool', places', u, k) == Lookup(z, pool, places, u, k)
    {
      OneSlotKeeps(z, pool, places, pool', places', t, s, u, k);
    }
  }

  lemma SplitIsTrie(z: Sizes, pool: seq<Table>, places: seq<Place>, t: nat, s: nat)
    requires Trie(z, pool, places) && t < |pool| && s < |pool[t]| && pool[t][s].IsEntry()
    requires z.Proper(z.Child(places[t], s))
    ensures var (pool', places') := Split(z, pool, places, t, s); Trie(z, pool', places')
  {
    var (pool', places') := Split(z, pool, places, t, s);
    var e, p, n := pool[t][s], z.Child(places[t], s), |pool|;
    assert TableOk(z, pool, places, t);
    assert SlotOk(z, pool, places, places[t], s, e);
    DescendRoutes(z, p, e.key);
    assert pool'[n] == FreshTable(z.R(p.level), z.Slot(p, e.key), e);
    assert TableOk(z, pool', places', n);
    OneSlotKeepsTrie(z, pool, places, pool', places', t, s);
  }

  // ---------- What a search that adds its key does ----------

  /**
   From `pool` to `pool'`, slot `rs` of table `rt` has become the entry of
   `key` below table `t`, with the value `key` had or zero; all other keys keep
   their values, and tables above the level of `t` are untouched.
   */
  ghost predicate Found(z: Sizes, pool: seq<Table>, places: seq<Place>, pool': seq<Table>, places': seq<Place>,
                        t: nat, key: nat, rt: nat, rs: nat)
    requires Trie(z, pool, places) && t < |pool|
  {
    && Trie(z, pool', places') && places <= places'
    && (rt, rs) == Find(z, pool', places', t, key)
    && Lookup(z, pool', places', t, key) == Some(OrZero(Lookup(z, pool, places, t, key)))
    && KeepsOthers(z, pool, places, pool', places', key)
    && forall u :: 0 <= u < |pool| && places[u].level < places[t].level ==> pool'[u] == pool[u]
  }

  function OrZero(v: Option<nat>): nat { if v.None? then 0 else v.value }

  /** A search that went on in a follow-up table did for this one what it did for that one. */
  lemma FoundFromFollowUp(z: Sizes, pool: seq<Table>, places: seq<Place>, pool': seq<Table>, places': seq<Place>,
                          t: nat, key: nat, rt: nat, rs: nat)
    requires Trie(z, pool, places) && t < |pool| && ValidKey(key) && z.Routes(places[t], key)
    requires var s := z.Slot(places[t], key);
             s < |pool[t]| && pool[t][s].IsFollowUp() && pool[t][s].Next() < |pool| &&
             Found(z, pool, places, pool', places', pool[t][s].Next(), key, rt, rs)
    ensures Found(z, pool, places, pool', places', t, key, rt, rs)
  {
    assert TableOk(z, pool, places, t) && TableOk(z, pool', places', t);
    assert SlotOk(z, pool, places, places[t], z.Slot(places[t], key), pool[t][z.Slot(places[t], key)]);
  }

  lemma FoundAfterSplit(z: Sizes, pool: seq<Table>, places: seq<Place>, pool': seq<Table>, places': seq<Place>,
                        t: nat, key: nat, rt: nat, rs: nat)
    requires Trie(z, pool, places) && t < |pool| && ValidKey(key) && z.Routes(places[t], key)
    requires var s := z.Slot(places[t], key);
             s < |pool[t]| && pool[t][s].IsEntry() && pool[t][s].key != key &&
             var (split, places1) := Split(z, pool, places, t, s);
             Trie(z, split, places1) && Found(z, split, places1, pool', places', |pool|, key, rt, rs)
    ensures Found(z, pool, places, pool', places', t, key, rt, rs)
  {
    var (split, places1) := Split(z, pool, places, t, z.Slot(places[t], key));
    SplitKeeps(z, pool, places, t, key);
    FoundFromFollowUp(z, split, places1, pool', places', t, key, rt, rs);
    assert TableOk(z, pool, places, t) && TableOk(z, split, places1, t);
  }

  lemma FoundHit(z: Sizes, pool: seq<Table>, places: seq<Place>, t: nat, key: nat)
    requires Trie(z, pool, places) && t < |pool| && ValidKey(key) && z.Routes(places[t], key)
    requires z.Slot(places[t], key) < |pool[t]| && pool[t][z.Slot(places[t], key)].key == key
    ensures Found(z, pool, places, pool, places, t, key, t, z.Slot(places[t], key))
  {
    assert TableOk(z, pool, places, t);
  }

  lemma FoundVacant(z: Sizes, pool: seq<Table>, places: seq<Place>, t: nat, key: nat)
    requires Trie(z, pool, places) && t < |pool| && ValidKey(key) && z.Routes(places[t], key)
    requires z.Slot(places[t], key) < |pool[t]| && pool[t][z.Slot(places[t], key)].key == VACANT
    ensures var s := z.Slot(places[t], key);
            Found(z, pool, places, SetSlot(pool, t, s, pool[t][s].(key := key)), places, t, key, t, s)
  {
    FillVacant(z, pool, places, t, key);
  }

  /** Depth: no table is at level 63 or deeper, whatever the sizes. */
  lemma DepthBound(z: Sizes, pool: seq<Table>, places: seq<Place>, t: nat)
    requires Trie(z, pool, places) && t < |pool|
    ensures places[t].level < 63
  {
    assert TableOk(z, pool, places, t);
    WeightAtLeastPower(z.init, z.inc, places[t].level);
    PowerOf63();
    PowerMonotone(places[t].level, 63);
  }

  /** The table of the first key. */
  lemma FirstTable(z: Sizes, key: nat)
    requires z.Valid() && ValidKey(key)
    ensures key % z.init == z.Slot(ROOT, key) && z.R(0) == z.init
    ensures var pool := [FreshTable(z.init, z.Slot(ROOT, key), MapEntry(key, 0))];
            && Trie(z, pool, [ROOT])
            && Find(z, pool, [ROOT], 0, key) == (0, z.Slot(ROOT, key))
            && ValueOf(z, pool, [ROOT], key) == Some(0)
            && forall k :: ValidKey(k) && k != key ==> ValueOf(z, pool, [ROOT], k) == None
  {
    var table := FreshTable(z.init, z.Slot(ROOT, key), MapEntry(key, 0));
    RootRoutes(z, key);
    DescendRoutes(z, ROOT, key);
    assert TableOk(z, [table], [ROOT], 0);
  }

  // ---------- Visiting every element ----------

  /** What a traversal of the first `i` slots of table `t` visits, in order. */
  ghost function Visit(z: Sizes, pool: seq<Table>, places: seq<Place>, t: nat, i: nat): seq<MapEntry>
    requires Trie(z, pool, places) && t < |pool| && i <= |pool[t]|
    decreases z.Room(places[t]), i
  {
    if i == 0 then []
    else
      assert TableOk(z, pool, places, t);
      var e := pool[t][i - 1];
      assert SlotOk(z, pool, places, places[t], i - 1, e);
      var before := Visit(z, pool, places, t, i - 1);
      if e.key == VACANT then before
      else if e.IsFollowUp() then
        assert TableOk(z, pool, places, e.Next());
        ChildIsSmaller(z, places[t], i - 1);
        before + Visit(z, pool, places, e.Next(), |pool[e.Next()]|)
      else before + [e]
  }

  /** What is visited are entries, in slots before `i`, with the value a search returns. */
  lemma {:induction false} VisitedIsThere(z: Sizes, pool: seq<Table>, places: seq<Place>, t: nat, i: nat, e: MapEntry)
    requires Trie(z, pool, places) && t < |pool| && i <= |pool[t]|
    requires e in Visit(z, pool, places, t, i)
    ensures e.IsEntry() && z.Routes(places[t], e.key) && z.Slot(places[t], e.key) < i
    ensures Lookup(z, pool, places, t, e.key) == Some(e.val)
    decreases z.Room(places[t]), i
  {
    var o := pool[t][i - 1];
    assert TableOk(z, pool, places, t);
    assert SlotOk(z, pool, places, places[t], i - 1, o);
    if e in Visit(z, pool, places, t, i - 1) {
      VisitedIsThere(z, pool, places, t, i - 1, e);
    } else if o.IsFollowUp() {
      assert TableOk(z, pool, places, o.Next());
      ChildIsSmaller(z, places[t], i - 1);
      VisitedIsThere(z, pool, places, o.Next(), |pool[o.Next()]|, e);
      AscendRoutes(z, places[t], i - 1, e.key);
    } else {
      AscendRoutes(z, places[t], i - 1, e.key);
    }
  }

  /** Every key with a value is visited. */
  lemma {:induction false} ThereIsVisited(z: Sizes, pool: seq<Table>, places: seq<Place>, t: nat, i: nat, key: nat)
    requires Trie(z, pool, places) && t < |pool| && i <= |pool[t]|
    requires ValidKey(key) && z.Routes(places[t], key) && z.Slot(places[t], key) < i
    requires Lookup(z, pool, places, t, key).Some?
    ensures MapEntry(key, Lookup(z, pool, places, t, key).value) in Visit(z, pool, places, t, i)
    decreases z.Room(places[t]), i
  {
    var o := pool[t][i - 1];
    assert TableOk(z, pool, places, t);
    assert SlotOk(z, pool, places, places[t], i - 1, o);
    if z.Slot(places[t], key) < i - 1 {
      ThereIsVisited(z, pool, places, t, i - 1, key);
    } else if o.IsFollowUp() {
      assert TableOk(z, pool, places, o.Next());
      ChildIsSmaller(z, places[t], i - 1);
      DescendRoutes(z, places[t], key);
      ThereIsVisited(z, pool, places, o.Next(), |pool[o.Next()]|, key);
    }
  }

  ghost predicate DistinctKeys(es: seq<MapEntry>) {
    forall i, j :: 0 <= i < j < |es| ==> es[i].key != es[j].key
  }

  lemma {:induction false} VisitedOnce(z: Sizes, pool: seq<Table>, places: seq<Place>, t: nat, i: nat)
    requires Trie(z, pool, places) && t < |pool| && i <= |pool[t]|
    ensures DistinctKeys(Visit(z, pool, places, t, i))
    decreases z.Room(places[t]), i
  {
    if i > 0 {
      var o := pool[t][i - 1];
      assert TableOk(z, pool, places, t);
      assert SlotOk(z, pool, places, places[t], i - 1, o);
      VisitedOnce(z, pool, places, t, i - 1);
      var before := Visit(z, pool, places, t, i - 1);
      forall e | e in before ensures z.Slot(places[t], e.key) < i - 1 {
        VisitedIsThere(z, pool, places, t, i - 1, e);
      }
      if o.IsFollowUp() {
        assert TableOk(z, pool, places, o.Next());
        ChildIsSmaller(z, places[t], i - 1);
        VisitedOnce(z, pool, places, o.Next(), |pool[o.Next()]|);
        var below := Visit(z, pool, places, o.Next(), |pool[o.Next()]|);
        forall e | e in below ensures z.Slot(places[t], e.key) == i - 1 {
          VisitedIsThere(z, pool, places, o.Next(), |pool[o.Next()]|, e);
          AscendRoutes(z, places[t], i - 1, e.key);
        }
        AppendDistinct(z, places[t], before, below, i - 1);
      } else if o.IsEntry() {
        AscendRoutes(z, places[t], i - 1, o.key);
        AppendDistinct(z, places[t], before, [o], i - 1);
      }
    }
  }

  lemma AppendDistinct(z: Sizes, p: Place, es: seq<MapEntry>, more: seq<MapEntry>, s: nat)
    requires z.Valid() && DistinctKeys(es) && DistinctKeys(more)
    requires forall e :: e in es ==> z.Slot(p, e.key) < s
    requires forall e :: e in more ==> z.Slot(p, e.key) == s
    ensures DistinctKeys(es + more)
  {
    var all := es + more;
    forall i, j | 0 <= i < j < |all| ensures all[i].key != all[j].key {
      if i < |es| <= j {
        assert all[i] in es && all[j] in more;
      }
    }
  }

  /** A traversal from the root visits every key that has a value exactly once, with that value, and nothing else. */
  lemma VisitIsExact(z: Sizes, pool: seq<Table>, places: seq<Place>)
    requires Trie(z, pool, places) && pool != []
    ensures var es := Visit(z, pool, places, 0, |pool[0]|);
            && DistinctKeys(es)
            && forall key: nat, val: nat :: ValidKey(key) ==>
                 (MapEntry(key, val) in es <==> ValueOf(z, pool, places, key) == Some(val))
    ensures forall e :: e in Visit(z, pool, places, 0, |pool[0]|) ==> ValidKey(e.key)
  {
    var es := Visit(z, pool, places, 0, |pool[0]|);
    VisitedOnce(z, pool, places, 0, |pool[0]|);
    assert TableOk(z, pool, places, 0);
    forall e | e in es ensures ValidKey(e.key) && ValueOf(z, pool, places, e.key) == Some(e.val) {
      VisitedIsThere(z, pool, places, 0, |pool[0]|, e);
    }
    forall key | ValidKey(key) && ValueOf(z, pool, places, key).Some?
      ensures MapEntry(key, ValueOf(z, pool, places, key).value) in es
    {
      RootRoutes(z, key);
      ThereIsVisited(z, pool, places, 0, |pool[0]|, key);
    }
  }
}
