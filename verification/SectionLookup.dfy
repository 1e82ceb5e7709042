/**
 Finding the unwind sections for a pc by asking every loaded object in turn,
 with and without the cache in front.
 */
module SectionLookup {
  import opened HeaderCache
  import opened Words
  import opened Wrappers

  datatype SegmentKind = Load | EhFrame | Other

  /** A program header: the kind of segment, its address before relocation, and its size in memory. */
  datatype Phdr = Phdr(kind: SegmentKind, vaddr: nat, memsz: nat)

  /** A loaded object: its load address and its program headers. */
  datatype LoadedObject = LoadedObject(addr: nat, phdrs: seq<Phdr>) {
    function Begin(i: nat): nat
      requires i < |phdrs|
    {
      (addr + phdrs[i].vaddr) % TWO64
    }

    /** Segment `i` is loaded and `pc` lies in it. */
    predicate Contains(i: nat, pc: nat)
      requires i < |phdrs|
    {
      phdrs[i].kind == Load && Begin(i) <= pc < (Begin(i) + phdrs[i].memsz) % TWO64
    }
  }

  /** Where `.eh_frame_hdr` says the frames are, if its header, at an address and with a size, can be decoded. */
  type Decoder = (nat, nat) -> Option<nat>

  const SIZE_MAX: nat := 0xffff_ffff_ffff_ffff

  // ---------- The search without a cache ----------

  /** The first loaded segment from `i` on that `pc` lies in, or their number. */
  function TextSegment(o: LoadedObject, pc: nat, i: nat): (r: nat)
    requires i <= |o.phdrs|
    ensures i <= r <= |o.phdrs|
    ensures r < |o.phdrs| ==> o.Contains(r, pc)
    ensures forall j :: i <= j < r ==> !o.Contains(j, pc)
    decreases |o.phdrs| - i
  {
    if i == |o.phdrs| || o.Contains(i, pc) then i else TextSegment(o, pc, i + 1)
  }

  /** The sections described by the last of the first `i` headers that is a decodable `.eh_frame_hdr`. */
  function UnwindSegment(o: LoadedObject, decode: Decoder, i: nat): Option<(nat, nat, nat)>
    requires i <= |o.phdrs|
  {
    if i == 0 then None
    else
      var p := o.phdrs[i - 1];
      if p.kind == EhFrame && decode(o.Begin(i - 1), p.memsz).Some?
      then Some((decode(o.Begin(i - 1), p.memsz).value, o.Begin(i - 1), p.memsz))
      else UnwindSegment(o, decode, i - 1)
  }

  /** What one object answers. */
  function Scan(o: LoadedObject, decode: Decoder, pc: nat): Option<UnwindInfoSections> {
    if o.phdrs == [] || pc < o.addr then None
    else
      var text := TextSegment(o, pc, 0);
      var unwind := UnwindSegment(o, decode, |o.phdrs|);
      if text == |o.phdrs| || unwind.None? then None
      else Some(UnwindInfoSections(o.Begin(text), o.phdrs[text].memsz,
                                   unwind.value.0, SIZE_MAX, unwind.value.1, unwind.value.2))
  }

  /** The first answer among the objects from `k` on. */
  function ScanFrom(objects: seq<LoadedObject>, decode: Decoder, pc: nat, k: nat): Option<UnwindInfoSections>
    requires k <= |objects|
    decreases |objects| - k
  {
    if k == |objects| then None
    else if Scan(objects[k], decode, pc).Some? then Scan(objects[k], decode, pc)
    else ScanFrom(objects, decode, pc, k + 1)
  }

  // ---------- What an answer says ----------

  /** Segment `i` of `o` is loaded and holds `pc`. */
  predicate Holds(o: LoadedObject, i: int, pc: nat) {
    && 0 <= i < |o.phdrs| && o.phdrs[i].kind == Load
    && var start := Wrap64(o.addr + o.phdrs[i].vaddr); start <= pc < Wrap64(start + o.phdrs[i].memsz)
  }

  /** Segment `j` of `o` is a header that says where the frames are. */
  predicate Tells(o: LoadedObject, decode: Decoder, j: int) {
    0 <= j < |o.phdrs| && o.phdrs[j].kind == EhFrame && decode(Wrap64(o.addr + o.phdrs[j].vaddr), o.phdrs[j].memsz).Some?
  }

  /** By the first segment that holds `pc` and the last that tells: addresses and sizes of both, and the frames, of unknown size. */
  ghost predicate Describes(o: LoadedObject, decode: Decoder, pc: nat, i: int, j: int, info: UnwindInfoSections) {
    && pc >= o.addr && Holds(o, i, pc) && (forall l :: 0 <= l < i ==> !Holds(o, l, pc))
    && Tells(o, decode, j) && (forall l :: j < l < |o.phdrs| ==> !Tells(o, decode, l))
    && info.dsoBase == Wrap64(o.addr + o.phdrs[i].vaddr) && info.textSegmentLength == o.phdrs[i].memsz
    && info.dwarfIndexSection == Wrap64(o.addr + o.phdrs[j].vaddr) && info.dwarfIndexSectionLength == o.phdrs[j].memsz
    && info.dwarfSection == decode(info.dwarfIndexSection, info.dwarfIndexSectionLength).value && info.dwarfSectionLength == TWO64 - 1
  }

  lemma {:induction false} UnwindIs(o: LoadedObject, decode: Decoder, i: nat, j: int)
    requires i <= |o.phdrs|
    ensures UnwindSegment(o, decode, i) == None <==> forall l :: 0 <= l < i ==> !Tells(o, decode, l)
    ensures 0 <= j < i && Tells(o, decode, j) && (forall l :: j < l < i ==> !Tells(o, decode, l)) ==>
              var at := Wrap64(o.addr + o.phdrs[j].vaddr);
              UnwindSegment(o, decode, i) == Some((decode(at, o.phdrs[j].memsz).value, at, o.phdrs[j].memsz))
  {
    if i > 0 {
      if Tells(o, decode, i - 1) { assert Tells(o, decode, i - 1); } else { UnwindIs(o, decode, i - 1, j); }
    }
  }

  lemma {:induction false} LastTells(o: LoadedObject, decode: Decoder, i: nat) returns (j: int)
    requires i <= |o.phdrs| && exists l :: 0 <= l < i && Tells(o, decode, l)
    ensures 0 <= j < i && Tells(o, decode, j) && forall l :: j < l < i ==> !Tells(o, decode, l)
  {
    if Tells(o, decode, i - 1) { j := i - 1; } else { j := LastTells(o, decode, i - 1); }
  }

  /** One object's answer is what its segments describe. */
  lemma ScanSays(o: LoadedObject, decode: Decoder, pc: nat, info: UnwindInfoSections)
    ensures Scan(o, decode, pc) == Some(info) <==> exists i, j :: Describes(o, decode, pc, i, j, info)
  {
    forall i: nat | i < |o.phdrs| ensures Holds(o, i, pc) <==> o.Contains(i, pc) { }
    if i, j :| Describes(o, decode, pc, i, j, info) {
      assert TextSegment(o, pc, 0) == i;
      UnwindIs(o, decode, |o.phdrs|, j);
    }
    if Scan(o, decode, pc) == Some(info) {
      UnwindIs(o, decode, |o.phdrs|, -1);
      var j := LastTells(o, decode, |o.phdrs|);
      UnwindIs(o, decode, |o.phdrs|, j);
      assert Describes(o, decode, pc, TextSegment(o, pc, 0), j, info);
    }
  }

  ghost predicate Answers(o: LoadedObject, decode: Decoder, pc: nat) { exists i, j, info :: Describes(o, decode, pc, i, j, info) }

  /** The search's answer is what the segments of the first object that answers describe. */
  lemma {:induction false} SearchSays(objects: seq<LoadedObject>, decode: Decoder, pc: nat, info: UnwindInfoSections, k: nat)
    requires k <= |objects|
    ensures ScanFrom(objects, decode, pc, k) == Some(info) <==>
            exists l, i, j :: k <= l < |objects| && Describes(objects[l], decode, pc, i, j, info)
                              && forall l' :: k <= l' < l ==> !Answers(objects[l'], decode, pc)
    decreases |objects| - k
  {
    if k < |objects| {
      var o := objects[k];
      ScanSays(o, decode, pc, info);
      if Scan(o, decode, pc).Some? {
        ScanSays(o, decode, pc, Scan(o, decode, pc).value);
        assert Answers(o, decode, pc);
      } else {
        if i, j, other :| Describes(o, decode, pc, i, j, other) { ScanSays(o, decode, pc, other); }
        assert !Answers(o, decode, pc);
        SearchSays(objects, decode, pc, info, k + 1);
      }
    }
  }

  // ---------- When remembering an answer is right ----------

  /** Loaded segments do not wrap around, and no two of them overlap. */
  ghost predicate WellLaid(objects: seq<LoadedObject>) {
    && (forall k, i :: 0 <= k < |objects| && 0 <= i < |objects[k].phdrs| && objects[k].phdrs[i].kind == Load ==>
          objects[k].addr + objects[k].phdrs[i].vaddr + objects[k].phdrs[i].memsz < TWO64)
    && (forall k, i, l, j, pc: nat ::
          (0 <= k < |objects| && 0 <= i < |objects[k].phdrs| && objects[k].Contains(i, pc) &&
           0 <= l < |objects| && 0 <= j < |objects[l].phdrs| && objects[l].Contains(j, pc)) ==> k == l && i == j)
  }

  /** `info` is what the search finds for every pc that it covers. */
  ghost predicate Right(objects: seq<LoadedObject>, decode: Decoder, info: UnwindInfoSections) {
    forall pc: nat :: info.Covers(pc) ==> ScanFrom(objects, decode, pc, 0) == Some(info)
  }

  lemma {:induction false} SkipTo(objects: seq<LoadedObject>, decode: Decoder, pc: nat, j: nat, k: nat)
    requires j <= k <= |objects| && forall l :: j <= l < k ==> Scan(objects[l], decode, pc) == None
    ensures ScanFrom(objects, decode, pc, j) == ScanFrom(objects, decode, pc, k)
    decreases k - j
  {
    if j < k { SkipTo(objects, decode, pc, j + 1, k); }
  }

  /** What is found for one pc is what is found for every pc in the same segment. */
  lemma AnswersAreRight(objects: seq<LoadedObject>, decode: Decoder, pc: nat, k: nat)
    requires WellLaid(objects) && k < |objects| && Scan(objects[k], decode, pc).Some?
    ensures Right(objects, decode, Scan(objects[k], decode, pc).value)
  {
    var o := objects[k];
    var info := Scan(o, decode, pc).value;
    var text := TextSegment(o, pc, 0);
    forall pc': nat | info.Covers(pc') ensures ScanFrom(objects, decode, pc', 0) == Some(info) {
      assert o.Contains(text, pc');
      assert pc' >= o.addr;
      OnlySegment(objects, pc', k, text);
      forall l | 0 <= l < k ensures Scan(objects[l], decode, pc') == None {
        OnlySegment(objects, pc', k, text);
        var t := TextSegment(objects[l], pc', 0);
      }
      SkipTo(objects, decode, pc', 0, k);
    }
  }

  /** The segment a pc lies in is the first, and only, one that a search in its object finds; other objects have none. */
  lemma OnlySegment(objects: seq<LoadedObject>, pc: nat, k: nat, i: nat)
    requires WellLaid(objects) && k < |objects| && i < |objects[k].phdrs| && objects[k].Contains(i, pc)
    ensures TextSegment(objects[k], pc, 0) == i
    ensures forall l :: 0 <= l < |objects| && l != k ==> TextSegment(objects[l], pc, 0) == |objects[l].phdrs|
  {
    var r := TextSegment(objects[k], pc, 0);
    assert r <= i;
  }

  // ---------- The search ----------

  class SectionFinder {
    const cache: FrameHeaderCache
    const decode: Decoder
    /** The objects that are loaded when the loader's counters have these values. */
    ghost const loaded: (nat, nat) -> seq<LoadedObject>

    /** Everything in the cache is right for the objects loaded when the counters were last looked at. */
    ghost predicate Valid()
      reads this, cache, cache.next, cache.infos
    {
      && (cache.Untouched() || cache.Valid())
      && (cache.Valid() ==> forall k :: 0 <= k < |cache.Contents()| ==>
            Right(loaded(cache.lastAdds, cache.lastSubs), decode, cache.Contents()[k]))
    }

    constructor (decode: Decoder, ghost loaded: (nat, nat) -> seq<LoadedObject>)
      ensures Valid() && fresh(cache) && this.decode == decode && this.loaded == loaded
      ensures cache.Untouched()
    {
      this.decode := decode;
      this.loaded := loaded;
      cache := new FrameHeaderCache();
    }

    /** What the callback does when the cache has no answer: look for the text segment, then for unwind information. */
    method ScanObject(o: LoadedObject, pc: nat, sects: UnwindInfoSections) returns (ok: bool, found: UnwindInfoSections)
      requires o.phdrs != [] && pc >= o.addr
      ensures ok <==> Scan(o, decode, pc).Some?
      ensures ok ==> found == Scan(o, decode, pc).value
    {
      found := sects;
      var foundText := false;
      var i := 0;
      while i < |o.phdrs| && !foundText
        invariant 0 <= i <= |o.phdrs|
        invariant !foundText ==> TextSegment(o, pc, 0) == TextSegment(o, pc, i)
        invariant foundText ==> var t := TextSegment(o, pc, 0);
                    t < |o.phdrs| && found.dsoBase == o.Begin(t) && found.textSegmentLength == o.phdrs[t].memsz
        decreases |o.phdrs| - i, !foundText
      {
        if o.Contains(i, pc) {
          found := found.(dsoBase := o.Begin(i), textSegmentLength := o.phdrs[i].memsz);
          foundText := true;
        } else {
          i := i + 1;
        }
      }
      if !foundText { return false, found; }
      ghost var t := TextSegment(o, pc, 0);
      i := |o.phdrs|;
      while i > 0
        invariant 0 <= i <= |o.phdrs|
        invariant UnwindSegment(o, decode, |o.phdrs|) == UnwindSegment(o, decode, i)
        invariant found.dsoBase == o.Begin(t) && found.textSegmentLength == o.phdrs[t].memsz
      {
        var p := o.phdrs[i - 1];
        if p.kind == EhFrame {
          found := found.(dwarfIndexSection := o.Begin(i - 1), dwarfIndexSectionLength := p.memsz);
          var frames := decode(o.Begin(i - 1), p.memsz);
          if frames.Some? {
            return true, found.(dwarfSection := frames.value, dwarfSectionLength := SIZE_MAX);
          }
        }
        i := i - 1;
      }
      ok := false;
    }

    /** The callback for one object: the cache first, then the object itself, whose answer the cache remembers. */
    method FindUnwindSectionsByPhdr(o: LoadedObject, adds: nat, subs: nat, pc: nat, sects: UnwindInfoSections,
                                    ghost objects: seq<LoadedObject>, ghost k: nat)
      returns (ok: bool, found: UnwindInfoSections)
      requires Valid() && objects == loaded(adds, subs) && WellLaid(objects) && k < |objects| && o == objects[k]
      requires cache.Untouched() ==> adds != ULLONG_MAX || subs != ULLONG_MAX
      modifies cache, cache.next, cache.infos
      ensures Valid() && (old(cache.Valid()) ==> cache.Valid())
      ensures ok ==> ScanFrom(objects, decode, pc, 0) == Some(found) || Scan(o, decode, pc) == Some(found)
      ensures !ok ==> Scan(o, decode, pc) == None
    {
      found := sects;
      if |o.phdrs| == 0 || pc < o.addr {
        return false, found;
      }
      ok, found := cache.Find(adds, subs, pc, found);
      if ok { return; }
      ok, found := ScanObject(o, pc, found);
      if ok {
        AnswersAreRight(objects, decode, pc, k);
        Remember(found);
      }
    }

    /** Puts a right answer into the cache. */
    method Remember(info: UnwindInfoSections)
      requires Valid() && cache.Valid() && Right(loaded(cache.lastAdds, cache.lastSubs), decode, info)
      modifies cache, cache.next, cache.infos
      ensures Valid() && cache.Valid() && cache.lastAdds == old(cache.lastAdds) && cache.lastSubs == old(cache.lastSubs)
    {
      ghost var was := cache.Contents();
      cache.Add(info);
      forall k | 0 <= k < |cache.Contents()| ensures Right(loaded(cache.lastAdds, cache.lastSubs), decode, cache.Contents()[k]) {
        assert k > 0 ==> cache.Contents()[k] == was[k - 1];
      }
    }

    /** Asks every object; as soon as one answers, that is the answer. */
    method FindUnwindSections(objects: seq<LoadedObject>, adds: nat, subs: nat, pc: nat)
      returns (ok: bool, found: UnwindInfoSections)
      requires Valid() && objects == loaded(adds, subs) && WellLaid(objects)
      requires cache.Untouched() ==> adds != ULLONG_MAX || subs != ULLONG_MAX
      modifies cache, cache.next, cache.infos
      ensures Valid()
      // The answer is the one the search without a cache gives
      ensures ok <==> ScanFrom(objects, decode, pc, 0).Some?
      ensures ok ==> found == ScanFrom(objects, decode, pc, 0).value
    {
      found := NO_SECTIONS;
      for k := 0 to |objects|
        invariant Valid()
        invariant cache.Untouched() ==> adds != ULLONG_MAX || subs != ULLONG_MAX
        invariant ScanFrom(objects, decode, pc, 0) == ScanFrom(objects, decode, pc, k)
      {
        ok, found := FindUnwindSectionsByPhdr(objects[k], adds, subs, pc, found, objects, k);
        if ok { return; }
      }
      ok := false;
    }
  }
}
