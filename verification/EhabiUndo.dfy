/**
 The unwinding code of a prologue, last save first, undoes it, whatever the
 function has done with its registers since.
 */
module EhabiUndo {
  import opened EhabiOpcodes
  import opened Leb128
  import opened Words

  /** Registers of the three kinds. */
  datatype Regs = Regs(core: set<nat>, doubles: set<nat>, pac: bool)

  function Both(a: Regs, b: Regs): Regs { Regs(a.core + b.core, a.doubles + b.doubles, a.pac || b.pac) }

  predicate InRun(r: nat, first: nat, count: nat) { first <= r < first + count }

  /** The registers a save stores. */
  function RegsOf(s: Save): Regs {
    Regs(if s.PushCore? then BitsOf(s.mask) else {},
         if s.PushDoubles? then set r: nat | r < s.first + s.count && InRun(r, s.first, s.count) else {},
         s.PushPac?)
  }

  function Saved(saves: seq<Save>): Regs {
    if saves == [] then Regs({}, {}, false) else Both(Saved(saves[..|saves| - 1]), RegsOf(saves[|saves| - 1]))
  }

  /** The registers of `regs` are as in `before`, the others as in `start`; SP is `sp`. */
  ghost predicate Restored(f: File, before: File, start: File, regs: Regs, sp: word32)
    requires Sized(f) && Sized(before) && Sized(start)
  {
    && f.core[SP] == sp
    && (forall r: nat :: r < 16 && r != SP ==> f.core[r] == if r in regs.core then before.core[r] else start.core[r])
    && (forall r: nat :: r < 32 ==> f.doubles[r] == if r in regs.doubles then before.doubles[r] else start.doubles[r])
    && f.pac == if regs.pac then before.pac else start.pac
  }

  lemma {:induction false} PopWordsMoves(regs: set<nat>, i: nat, sp: word32, f: File, mem: Memory)
    requires Sized(f) && i <= 16 && SP !in regs
    ensures PopWords(regs, i, sp, f, mem).core[SP] == Wrap32(sp + 4 * Count(regs, i))
    decreases 16 - i
  {
    if i < 16 {
      if i in regs {
        PopWordsMoves(regs, i + 1, Wrap32(sp + 4), f.(core := f.core[i := mem(sp)]), mem);
        WrapAdd(sp + 4, 4 * Count(regs, i + 1));
      } else {
        PopWordsMoves(regs, i + 1, sp, f, mem);
      }
    }
  }

  lemma {:induction false} PopWordsKeepsSp(regs: set<nat>, i: nat, sp: word32, f: File, mem: Memory, before: File)
    requires Sized(f) && Sized(before) && i <= 16 && SP in regs && HoldsCore(regs, i, sp, before, mem)
    ensures PopWords(regs, i, sp, f, mem).core[SP] == if i <= SP then before.core[SP] else f.core[SP]
    decreases 16 - i
  {
    if i < 16 {
      if i in regs {
        PopWordsKeepsSp(regs, i + 1, Wrap32(sp + 4), f.(core := f.core[i := mem(sp)]), mem, before);
      } else {
        PopWordsKeepsSp(regs, i + 1, sp, f, mem, before);
      }
    }
  }

  lemma {:induction false} PopWordsElsewhere(regs: set<nat>, i: nat, sp: word32, f: File, mem: Memory, before: File)
    requires Sized(f) && Sized(before) && i <= 16 && HoldsCore(regs, i, sp, before, mem)
    ensures var r := PopWords(regs, i, sp, f, mem);
            && r.doubles == f.doubles && r.pac == f.pac
            && forall k: nat :: k < 16 && k != SP ==> r.core[k] == if k >= i && k in regs then before.core[k] else f.core[k]
    decreases 16 - i
  {
    if i < 16 {
      if i in regs {
        var f' := f.(core := f.core[i := mem(sp)]);
        PopWordsElsewhere(regs, i + 1, Wrap32(sp + 4), f', mem, before);
        assert PopWords(regs, i, sp, f, mem) == PopWords(regs, i + 1, Wrap32(sp + 4), f', mem);
      } else {
        PopWordsElsewhere(regs, i + 1, sp, f, mem, before);
      }
    }
  }

  /** Popping gives back exactly the registers of the set; SP goes where they end, unless it is one of them. */
  lemma PopWordsRestores(regs: set<nat>, sp: word32, f: File, mem: Memory, before: File)
    requires Sized(f) && Sized(before) && HoldsCore(regs, 0, sp, before, mem)
    ensures var r := PopWords(regs, 0, sp, f, mem);
            && r.doubles == f.doubles && r.pac == f.pac
            && r.core[SP] == (if SP in regs then before.core[SP] else Wrap32(sp + 4 * Count(regs, 0)))
            && forall k: nat :: k < 16 && k != SP ==> r.core[k] == if k in regs then before.core[k] else f.core[k]
  {
    PopWordsElsewhere(regs, 0, sp, f, mem, before);
    if SP in regs { PopWordsKeepsSp(regs, 0, sp, f, mem, before); } else { PopWordsMoves(regs, 0, sp, f, mem); }
  }

  lemma {:induction false} PopPairsRestores(i: nat, end: nat, extended: bool, sp: word32, f: File, mem: Memory, before: File)
    requires Sized(f) && Sized(before) && i <= end <= (if extended then 16 else 32) && HoldsDoubles(i, end, sp, before, mem)
    ensures var r := PopPairs(i, end, extended, sp, f, mem);
            && r.pac == f.pac
            && r.core == f.core[SP := Wrap32(sp + 8 * (end - i) + if extended then 4 else 0)]
            && forall k: nat :: k < 32 ==> r.doubles[k] == if i <= k < end then before.doubles[k] else f.doubles[k]
    decreases end - i
  {
    if i < end {
      PopPairsRestores(i + 1, end, extended, Wrap32(sp + 8), f.(doubles := f.doubles[i := DoubleAt(sp, mem)]), mem, before);
      WrapAdd(sp + 8, 8 * (end - (i + 1)) + if extended then 4 else 0);
    }
  }

  lemma NoneBoth(r: Regs)
    ensures Both(r, Regs({}, {}, false)) == r
  {
  }

  lemma BothOnwards(a: Regs, b: Regs, c: Regs)
    ensures Both(Both(a, b), c) == Both(a, Both(c, b))
  {
  }

  lemma BothNone(r: Regs)
    ensures Both(Regs({}, {}, false), r) == r
  {
  }

  lemma CoreRestored(r: File, popped: set<nat>, f: File, before: File, start: File, regs: Regs, from: word32, sp: word32)
    requires Sized(r) && Sized(f) && Sized(before) && Sized(start) && Restored(f, before, start, regs, from)
    requires r.doubles == f.doubles && r.pac == f.pac && r.core[SP] == sp
    requires forall k: nat :: k < 16 && k != SP ==> r.core[k] == if k in popped then before.core[k] else f.core[k]
    ensures Restored(r, before, start, Both(regs, Regs(popped, {}, false)), sp)
  {
  }

  lemma UndoWords(popped: set<nat>, sp: word32, f: File, mem: Memory, before: File, start: File, regs: Regs, r: File, top: word32)
    requires Sized(f) && Sized(before) && Sized(start) && SP !in popped
    requires Restored(f, before, start, regs, sp) && HoldsCore(popped, 0, sp, before, mem)
    requires r == PopWords(popped, 0, sp, f, mem) && top == Wrap32(sp + 4 * Count(popped, 0))
    ensures Restored(r, before, start, Both(regs, Regs(popped, {}, false)), top)
  {
    PopWordsRestores(popped, sp, f, mem, before);
    CoreRestored(r, popped, f, before, start, regs, sp, top);
  }

  lemma BackUp(sp: word32, n: int)
    ensures Wrap32(Wrap32(sp - n) + n) == sp
  {
    WrapAdd(sp - n, n);
  }

  lemma CoreUndone(s: Save, f: File, mem: Memory)
    requires Sized(f) && s.PushCore?
    ensures Exec(Undoing(s), f, mem) == PopWords(BitsOf(s.mask), 0, f.core[SP], f, mem)
    ensures RegsOf(s) == Regs(BitsOf(s.mask), {}, false) && Room(s) == 4 * Count(BitsOf(s.mask), 0)
  {
  }

  lemma UndoCore(s: Save, top: word32, f: File, mem: Memory, before: File, start: File, regs: Regs, r: File)
    requires Sized(f) && Sized(before) && Sized(start) && Sensible(s) && s.PushCore?
    requires Restored(f, before, start, regs, Wrap32(top - Room(s))) && Holds(s, Wrap32(top - Room(s)), before, mem)
    requires r == Exec(Undoing(s), f, mem)
    ensures Restored(r, before, start, Both(regs, RegsOf(s)), top)
  {
    BackUp(top, Room(s));
    CoreUndone(s, f, mem);
    UndoWords(BitsOf(s.mask), f.core[SP], f, mem, before, start, regs, r, top);
  }

  lemma DoublesRestored(r: File, first: nat, end: nat, f: File, before: File, start: File, regs: Regs, popped: set<nat>, from: word32, sp: word32)
    requires Sized(r) && Sized(f) && Sized(before) && Sized(start) && Restored(f, before, start, regs, from)
    requires r.pac == f.pac && r.core == f.core[SP := sp]
    requires forall k: nat :: k in popped <==> first <= k < end
    requires forall k: nat :: k < 32 ==> r.doubles[k] == if first <= k < end then before.doubles[k] else f.doubles[k]
    ensures Restored(r, before, start, Both(regs, Regs({}, popped, false)), sp)
  {
  }

  lemma UndoDoubles(s: Save, top: word32, f: File, mem: Memory, before: File, start: File, regs: Regs, r: File)
    requires Sized(f) && Sized(before) && Sized(start) && Sensible(s) && s.PushDoubles?
    requires Restored(f, before, start, regs, Wrap32(top - Room(s))) && Holds(s, Wrap32(top - Room(s)), before, mem)
    requires r == Exec(Undoing(s), f, mem)
    ensures Restored(r, before, start, Both(regs, RegsOf(s)), top)
  {
    var end, low := s.first + s.count, f.core[SP];
    BackUp(top, Room(s));
    PopPairsRestores(s.first, end, s.extended, low, f, mem, before);
    assert r == PopPairs(s.first, end, s.extended, low, f, mem) && RegsOf(s) == Regs({}, RegsOf(s).doubles, false);
    DoublesRestored(r, s.first, end, f, before, start, regs, RegsOf(s).doubles, low, top);
  }

  lemma UndoSp(s: Save, top: word32, f: File, mem: Memory, before: File, start: File, regs: Regs, r: File)
    requires Sized(f) && Sized(before) && Sized(start) && Sensible(s) && (s.Lower? || s.Raise? || s.PushPac?)
    requires Restored(f, before, start, regs, Wrap32(top - Room(s))) && Holds(s, Wrap32(top - Room(s)), before, mem)
    requires r == Exec(Undoing(s), f, mem)
    ensures Restored(r, before, start, Both(regs, RegsOf(s)), top)
  {
    BackUp(top, Room(s));
    assert regs.core + {} == regs.core && regs.doubles + {} == regs.doubles;
  }

  /** A frame pointer that still holds what was copied gives SP back, whatever has become of it. */
  lemma UndoFrame(s: Save, top: word32, f: File, mem: Memory, before: File, start: File, regs: Regs, r: File)
    requires Sized(f) && Sized(before) && Sized(start) && Sensible(s) && s.SetFrame?
    requires Restored(f, before, start, regs, f.core[SP]) && s.reg !in regs.core && start.core[s.reg] == top
    requires r == Exec(Undoing(s), f, mem)
    ensures Restored(r, before, start, Both(regs, RegsOf(s)), top)
  {
    assert regs.core + {} == regs.core && regs.doubles + {} == regs.doubles;
  }

  /** SP is where the save has left it, or the save has left a copy of that. */
  predicate Found(s: Save, low: word32, f: File)
    requires Sized(f)
  {
    s.SetFrame? || f.core[SP] == low
  }

  /** One instruction undoes one save. */
  lemma UndoOne(s: Save, top: word32, f: File, mem: Memory, before: File, start: File, regs: Regs, r: File)
    requires Sized(f) && Sized(before) && Sized(start) && Sensible(s)
    requires Restored(f, before, start, regs, f.core[SP]) && Found(s, Wrap32(top - Room(s)), f)
    requires Holds(s, Wrap32(top - Room(s)), before, mem)
    requires s.SetFrame? ==> s.reg !in regs.core && start.core[s.reg] == top
    requires r == Exec(Undoing(s), f, mem)
    ensures Restored(r, before, start, Both(regs, RegsOf(s)), top)
  {
    if s.PushCore? {
      UndoCore(s, top, f, mem, before, start, regs, r);
    } else if s.PushDoubles? {
      UndoDoubles(s, top, f, mem, before, start, regs, r);
    } else if s.SetFrame? {
      UndoFrame(s, top, f, mem, before, start, regs, r);
    } else {
      UndoSp(s, top, f, mem, before, start, regs, r);
    }
  }

  /** The code ends with the data, or with the code that says so. */
  predicate EndsAt(bytes: seq<byte>, offset: nat, len: nat)
    requires len <= |bytes|
  {
    offset == len || (offset < len && bytes[offset] == 0xB0)
  }

  lemma InterpretsFirst(s: Save, code: seq<byte>, bytes: seq<byte>, offset: nat, len: nat, f: File, mem: Memory, wrotePc: bool)
    requires Sized(f) && Sensible(s) && IsCode(s, code) && At(bytes, offset, code) && offset + |code| <= len <= |bytes|
    ensures Interpret(bytes, offset, len, f, mem, wrotePc) ==
            Interpret(bytes, offset + |code|, len, Exec(Undoing(s), f, mem), mem, wrotePc || PC in RegsOf(s).core)
  {
    CodeDecodes(s, code, bytes, offset, len);
  }

  /** Undoing the last save first, then the others. */
  function Undone(saves: seq<Save>, f: File, mem: Memory): (r: File)
    requires Sized(f)
    ensures Sized(r)
    decreases |saves|
  {
    if saves == [] then f else Undone(saves[..|saves| - 1], Exec(Undoing(saves[|saves| - 1]), f, mem), mem)
  }

  lemma InterpretsEnd(bytes: seq<byte>, offset: nat, len: nat, f: File, mem: Memory, wrotePc: bool)
    requires Sized(f) && len <= |bytes| && EndsAt(bytes, offset, len)
    ensures Interpret(bytes, offset, len, f, mem, wrotePc) == Finished(f, wrotePc)
  {
  }

  /** Codes for the saves, last first, stand from `offset` on, and the data ends after them. */
  predicate Coded(saves: seq<Save>, codes: seq<seq<byte>>, bytes: seq<byte>, offset: nat, len: nat)
    requires len <= |bytes|
    decreases |saves|
  {
    if saves == [] then codes == [] && EndsAt(bytes, offset, len)
    else
      var n := |saves| - 1;
      && |codes| == n + 1 && Sensible(saves[n]) && IsCode(saves[n], codes[n])
      && At(bytes, offset, codes[n]) && offset + |codes[n]| <= len
      && Coded(saves[..n], codes[..n], bytes, offset + |codes[n]|, len)
  }

  /** Interpreting the code of the last save leaves the others to be undone. */
  lemma InterpretsLast(saves: seq<Save>, codes: seq<seq<byte>>, bytes: seq<byte>, offset: nat, len: nat, f: File, mem: Memory, wrotePc: bool)
    returns (next: nat, f': File, wrotePc': bool)
    requires Sized(f) && saves != [] && len <= |bytes| && Coded(saves, codes, bytes, offset, len)
    ensures Sized(f') && Interpret(bytes, offset, len, f, mem, wrotePc) == Interpret(bytes, next, len, f', mem, wrotePc')
    ensures var rest := saves[..|saves| - 1];
            && |codes| == |saves| && Coded(rest, codes[..|saves| - 1], bytes, next, len)
            && Undone(saves, f, mem) == Undone(rest, f', mem)
            && ((wrotePc || PC in Saved(saves).core) <==> (wrotePc' || PC in Saved(rest).core))
  {
    var s, code := saves[|saves| - 1], codes[|saves| - 1];
    next, f', wrotePc' := offset + |code|, Exec(Undoing(s), f, mem), wrotePc || PC in RegsOf(s).core;
    InterpretsFirst(s, code, bytes, offset, len, f, mem, wrotePc);
  }

  lemma {:induction false} InterpretsAll(saves: seq<Save>, codes: seq<seq<byte>>, bytes: seq<byte>, offset: nat, len: nat,
                                         f: File, mem: Memory, wrotePc: bool, o: Outcome)
    requires Sized(f) && len <= |bytes| && Coded(saves, codes, bytes, offset, len)
    requires o == Finished(Undone(saves, f, mem), wrotePc || PC in Saved(saves).core)
    ensures Interpret(bytes, offset, len, f, mem, wrotePc) == o
    decreases |saves|
  {
    if saves == [] {
      InterpretsEnd(bytes, offset, len, f, mem, wrotePc);
    } else {
      var n := |saves| - 1;
      var next, f', wrotePc' := InterpretsLast(saves, codes, bytes, offset, len, f, mem, wrotePc);
      InterpretsAll(saves[..n], codes[..n], bytes, next, len, f', mem, wrotePc', o);
    }
  }

  /** Every frame pointer still holds SP as it was when it was copied. */
  predicate FramesHeld(saves: seq<Save>, top: word32, start: File)
    requires Sized(start) && AllSensible(saves)
  {
    forall k :: 0 <= k < |saves| && saves[k].SetFrame? ==> start.core[saves[k].reg] == SpAfter(saves[..k + 1], top)
  }

  /** None of the frame pointers of `saves` is in `regs`. */
  predicate FramesApart(saves: seq<Save>, regs: set<nat>) {
    forall k :: 0 <= k < |saves| && saves[k].SetFrame? ==> saves[k].reg !in regs
  }

  /** Unwinding knows where SP was after the saves: it is there, or the last of them copied it. */
  predicate SpFound(saves: seq<Save>, top: word32, f: File)
    requires Sized(f)
  {
    (saves != [] && saves[|saves| - 1].SetFrame?) || f.core[SP] == SpAfter(saves, top)
  }

  lemma FramesHeldBefore(saves: seq<Save>, top: word32, start: File)
    requires Sized(start) && saves != [] && AllSensible(saves) && FramesHeld(saves, top, start)
    ensures FramesHeld(saves[..|saves| - 1], top, start)
    ensures saves[|saves| - 1].SetFrame? ==> start.core[saves[|saves| - 1].reg] == SpAfter(saves, top) == SpAfter(saves[..|saves| - 1], top)
  {
    var rest := saves[..|saves| - 1];
    assert saves[..|saves|] == saves;
    forall k | 0 <= k < |rest| && rest[k].SetFrame? ensures start.core[rest[k].reg] == SpAfter(rest[..k + 1], top) {
      assert rest[..k + 1] == saves[..k + 1];
    }
  }

  lemma {:induction false} UndoAll(saves: seq<Save>, top: word32, f: File, mem: Memory, before: File, start: File, regs: Regs)
    requires Sized(f) && Sized(before) && Sized(start) && AllSensible(saves) && Kept(saves, top, before, mem)
    requires Restored(f, before, start, regs, f.core[SP]) && SpFound(saves, top, f)
    requires FramesHeld(saves, top, start) && FramesApart(saves, regs.core)
    ensures Restored(Undone(saves, f, mem), before, start, Both(regs, Saved(saves)), top)
    decreases |saves|
  {
    if saves == [] {
      NoneBoth(regs);
    } else {
      var s, rest := saves[|saves| - 1], saves[..|saves| - 1];
      FramesHeldBefore(saves, top, start);
      UndoOne(s, SpAfter(rest, top), f, mem, before, start, regs, Exec(Undoing(s), f, mem));
      UndoAll(rest, top, Exec(Undoing(s), f, mem), mem, before, start, Both(regs, RegsOf(s)));
      BothOnwards(regs, RegsOf(s), Saved(rest));
    }
  }

  /**
   For any sequence of register pushes, moves of SP and copies of it, any
   choice of codes for them, and any registers at the time of unwinding, as
   long as what was pushed and copied is still there: interpreting the codes,
   last save first, gives back SP and every pushed register, leaves the other
   registers alone, and sets PC to the popped PC or else to the return address.
   SP itself may be anywhere if the last thing the prologue did was to copy it.
   */
  lemma UndoesPrologue(saves: seq<Save>, codes: seq<seq<byte>>, bytes: seq<byte>, offset: nat, len: nat,
                       before: File, start: File, mem: Memory)
    requires Sized(before) && Sized(start) && AllSensible(saves) && len <= |bytes| && Coded(saves, codes, bytes, offset, len)
    requires SpFound(saves, before.core[SP], start) && FramesHeld(saves, before.core[SP], start)
    requires Kept(saves, before.core[SP], before, mem)
    ensures var o, saved := Interpret(bytes, offset, len, start, mem, false), Saved(saves);
            && o.Continue? && Sized(o.file)
            && o.file.core[SP] == before.core[SP]
            && (forall r: nat :: r < 15 && r != SP ==> o.file.core[r] == if r in saved.core then before.core[r] else start.core[r])
            && o.file.core[PC] == (if PC in saved.core then before.core[PC] else o.file.core[LR])
            && (forall r: nat :: r < 32 ==> o.file.doubles[r] == if r in saved.doubles then before.doubles[r] else start.doubles[r])
            && o.file.pac == if saved.pac then before.pac else start.pac
  {
    InterpretsAll(saves, codes, bytes, offset, len, start, mem, false, Finished(Undone(saves, start, mem), PC in Saved(saves).core));
    UndoAll(saves, before.core[SP], start, mem, before, start, Regs({}, {}, false));
    BothNone(Saved(saves));
  }

  // ---------- Running the prologue ----------

  function CoreWords(regs: set<nat>, i: nat, f: File): (r: seq<word32>)
    requires Sized(f) && i <= 16
    ensures |r| == Count(regs, i)
    decreases 16 - i
  {
    if i == 16 then [] else if i in regs then [f.core[i]] + CoreWords(regs, i + 1, f) else CoreWords(regs, i + 1, f)
  }

  function DoubleWords(i: nat, end: nat, f: File): (r: seq<word32>)
    requires Sized(f) && i <= end <= 32
    ensures |r| == 2 * (end - i)
    decreases end - i
  {
    if i == end then [] else
      var low := f.doubles[i] % TWO32;
      var high := f.doubles[i] / TWO32;
      [low, high] + DoubleWords(i + 1, end, f)
  }

  /** The words a save stores, from the new SP up; an extended push leaves one more word unused. */
  function WordsOf(s: Save, f: File): (r: seq<word32>)
    requires Sized(f) && Sensible(s)
    ensures 4 * |r| <= (if Room(s) < 0 then 0 else Room(s))
  {
    match s
    case PushCore(mask) => CoreWords(BitsOf(mask), 0, f)
    case PushDoubles(first, count, _) => DoubleWords(first, first + count, f)
    case PushPac => [f.pac]
    case _ => []
  }

  /** Memory after storing words from `sp` up. */
  function Store(mem: Memory, sp: nat, words: seq<word32>): Memory {
    (a: nat) => if sp <= a < sp + 4 * |words| && (a - sp) % 4 == 0 then words[(a - sp) / 4] else mem(a)
  }

  /** How much stack the saves use. */
  function Depth(saves: seq<Save>): int {
    if saves == [] then 0 else Depth(saves[..|saves| - 1]) + Room(saves[|saves| - 1])
  }

  /** How many bytes a save writes. */
  function Written(s: Save): nat {
    match s
    case PushCore(mask) => 4 * Count(BitsOf(mask), 0)
    case PushDoubles(_, count, _) => 8 * count
    case PushPac => 4
    case _ => 0
  }

  /** The save writes address `a`, with SP at `low` after it. */
  predicate Writes(s: Save, low: int, a: nat) { low <= a < low + Written(s) }

  /** One of the saves, from SP at `sp` on, writes address `a`. */
  predicate Uses(saves: seq<Save>, sp: word32, a: nat) {
    saves != [] && (Writes(saves[|saves| - 1], sp - Depth(saves), a) || Uses(saves[..|saves| - 1], sp, a))
  }

  /** What a save wrote, and what all of them wrote, is in memory as in `was`. */
  ghost predicate Wrote(s: Save, low: int, was: Memory, now: Memory) {
    forall a: nat {:trigger Writes(s, low, a)} :: Writes(s, low, a) ==> now(a) == was(a)
  }

  ghost predicate Intact(saves: seq<Save>, sp: word32, was: Memory, now: Memory) {
    forall a: nat {:trigger Uses(saves, sp, a)} :: Uses(saves, sp, a) ==> now(a) == was(a)
  }

  ghost predicate Apart(saves: seq<Save>, sp: word32, s: Save, low: int) {
    forall a: nat {:trigger Uses(saves, sp, a)} :: Uses(saves, sp, a) ==> !Writes(s, low, a)
  }

  /** The stack does not wrap around, and no save writes what an earlier one has written. */
  ghost predicate Fits(saves: seq<Save>, sp: word32) {
    && 0 <= sp - Depth(saves) < TWO32
    && (saves == [] || (Fits(saves[..|saves| - 1], sp) && Apart(saves[..|saves| - 1], sp, saves[|saves| - 1], sp - Depth(saves))))
  }

  /** Memory after the prologue. */
  ghost function Prologue(saves: seq<Save>, f: File, mem: Memory): Memory
    requires Sized(f) && AllSensible(saves) && Fits(saves, f.core[SP])
  {
    if saves == [] then mem
    else Store(Prologue(saves[..|saves| - 1], f, mem), f.core[SP] - Depth(saves), WordsOf(saves[|saves| - 1], f))
  }

  lemma {:induction false} SpAfterIs(saves: seq<Save>, sp: word32)
    requires Fits(saves, sp)
    ensures SpAfter(saves, sp) == sp - Depth(saves)
  {
    if saves != [] { SpAfterIs(saves[..|saves| - 1], sp); }
  }

  /** Prologues that never raise SP fit, as long as there is stack. */
  lemma {:induction false} LoweringFits(saves: seq<Save>, sp: word32)
    requires forall k :: 0 <= k < |saves| ==> Room(saves[k]) >= 0
    requires Depth(saves) <= sp
    ensures Fits(saves, sp) && forall a: nat :: Uses(saves, sp, a) ==> sp - Depth(saves) <= a
  {
    if saves != [] { LoweringFits(saves[..|saves| - 1], sp); }
  }

  /** Memory holds the words from `sp` up. */
  predicate HasWords(mem: Memory, sp: nat, words: seq<word32>)
    decreases |words|
  {
    words == [] || (mem(sp) == words[0] && HasWords(mem, sp + 4, words[1..]))
  }

  lemma {:induction false} CoreWordsHold(regs: set<nat>, i: nat, sp: word32, f: File, mem: Memory)
    requires Sized(f) && i <= 16 && HasWords(mem, sp, CoreWords(regs, i, f)) && sp + 4 * Count(regs, i) < TWO32
    ensures HoldsCore(regs, i, sp, f, mem)
    decreases 16 - i
  {
    if i < 16 {
      if i in regs {
        assert CoreWords(regs, i, f)[1..] == CoreWords(regs, i + 1, f);
        CoreWordsHold(regs, i + 1, sp + 4, f, mem);
      } else {
        CoreWordsHold(regs, i + 1, sp, f, mem);
      }
    }
  }

  lemma Halves(d: nat)
    ensures d / TWO32 * TWO32 + d % TWO32 == d
  {
  }

  lemma {:induction false} DoubleWordsHold(i: nat, end: nat, sp: word32, f: File, mem: Memory)
    requires Sized(f) && i <= end <= 32 && HasWords(mem, sp, DoubleWords(i, end, f)) && sp + 8 * (end - i) < TWO32
    ensures HoldsDoubles(i, end, sp, f, mem)
    decreases end - i
  {
    if i < end {
      FirstDoubleHolds(i, end, sp, f, mem);
      assert Wrap32(sp + 8) == sp + 8;
      DoubleWordsHold(i + 1, end, sp + 8, f, mem);
    }
  }

  lemma FirstDoubleHolds(i: nat, end: nat, sp: word32, f: File, mem: Memory)
    requires Sized(f) && i < end <= 32 && HasWords(mem, sp, DoubleWords(i, end, f)) && sp + 8 * (end - i) < TWO32
    ensures DoubleAt(sp, mem) == f.doubles[i] && HasWords(mem, sp + 8, DoubleWords(i + 1, end, f))
  {
    var words := DoubleWords(i, end, f);
    assert words[1..][1..] == DoubleWords(i + 1, end, f);
    assert HasWords(mem, sp + 4, words[1..]);
    Halves(f.doubles[i]);
  }

  lemma {:induction false} WordsAt(mem: Memory, sp: nat, words: seq<word32>)
    requires forall k :: 0 <= k < |words| ==> mem(sp + 4 * k) == words[k]
    ensures HasWords(mem, sp, words)
    decreases |words|
  {
    if words != [] {
      assert mem(sp + 4 * 0) == words[0];
      forall k | 0 <= k < |words[1..]| ensures mem(sp + 4 + 4 * k) == words[1..][k] {
        assert mem(sp + 4 * (k + 1)) == words[k + 1];
      }
      WordsAt(mem, sp + 4, words[1..]);
    }
  }

  lemma WrittenIs(s: Save, f: File)
    requires Sized(f) && Sensible(s)
    ensures Written(s) == 4 * |WordsOf(s, f)| && (Written(s) > 0 ==> Written(s) <= Room(s))
  {
  }

  /** What a save has stored is where unwinding looks for it. */
  lemma StoreHolds(s: Save, sp: word32, f: File, earlier: Memory, was: Memory, now: Memory)
    requires Sized(f) && Sensible(s) && sp + Room(s) < TWO32
    requires was == Store(earlier, sp, WordsOf(s, f)) && Wrote(s, sp, was, now)
    ensures Holds(s, sp, f, now)
  {
    WrittenIs(s, f);
    forall a: nat | sp <= a < sp + Written(s) ensures now(a) == was(a) { assert Writes(s, sp, a); }
    StoredWords(WordsOf(s, f), sp, earlier, now);
    match s
    case PushCore(mask) => CoreWordsHold(BitsOf(mask), 0, sp, f, now);
    case PushDoubles(first, count, _) => DoubleWordsHold(first, first + count, sp, f, now);
    case _ =>
  }

  lemma StoredWords(words: seq<word32>, sp: nat, earlier: Memory, now: Memory)
    requires forall a: nat :: sp <= a < sp + 4 * |words| ==> now(a) == Store(earlier, sp, words)(a)
    ensures HasWords(now, sp, words)
  {
    forall k | 0 <= k < |words| ensures now(sp + 4 * k) == words[k] {
      assert now(sp + 4 * k) == Store(earlier, sp, words)(sp + 4 * k);
    }
    WordsAt(now, sp, words);
  }

  /** Everything the prologue stored is still where unwinding looks, if the words it used are as it left them. */
  lemma {:induction false} PrologueKeeps(saves: seq<Save>, f: File, mem: Memory, now: Memory)
    requires Sized(f) && AllSensible(saves) && Fits(saves, f.core[SP])
    requires Intact(saves, f.core[SP], Prologue(saves, f, mem), now)
    ensures Kept(saves, f.core[SP], f, now)
  {
    if saves != [] {
      EarlierKept(saves, f, mem, now);
      PrologueKeeps(saves[..|saves| - 1], f, mem, now);
      var low, earlier, was := LastStore(saves, f, mem, now);
      LastKept(saves, f.core[SP], low, f, earlier, was, now);
    }
  }

  /** The last save's store, and where it is. */
  lemma LastStore(saves: seq<Save>, f: File, mem: Memory, now: Memory) returns (low: word32, earlier: Memory, was: Memory)
    requires Sized(f) && saves != [] && AllSensible(saves) && Fits(saves, f.core[SP])
    requires Intact(saves, f.core[SP], Prologue(saves, f, mem), now)
    ensures var s := saves[|saves| - 1];
            && SpAfter(saves, f.core[SP]) == low && low + Room(s) < TWO32
            && was == Store(earlier, low, WordsOf(s, f)) && Wrote(s, low, was, now)
  {
    var sp := f.core[SP];
    SpAfterIs(saves, sp);
    low, earlier, was := sp - Depth(saves), Prologue(saves[..|saves| - 1], f, mem), Prologue(saves, f, mem);
    LastWritten(saves, sp, low, was, now);
  }

  lemma LastKept(saves: seq<Save>, sp: word32, low: word32, f: File, earlier: Memory, was: Memory, now: Memory)
    requires Sized(f) && saves != [] && AllSensible(saves) && Kept(saves[..|saves| - 1], sp, f, now)
    requires SpAfter(saves, sp) == low && low + Room(saves[|saves| - 1]) < TWO32
    requires was == Store(earlier, low, WordsOf(saves[|saves| - 1], f)) && Wrote(saves[|saves| - 1], low, was, now)
    ensures Kept(saves, sp, f, now)
  {
    StoreHolds(saves[|saves| - 1], low, f, earlier, was, now);
  }

  lemma EarlierKept(saves: seq<Save>, f: File, mem: Memory, now: Memory)
    requires Sized(f) && saves != [] && AllSensible(saves) && Fits(saves, f.core[SP])
    requires Intact(saves, f.core[SP], Prologue(saves, f, mem), now)
    ensures Intact(saves[..|saves| - 1], f.core[SP], Prologue(saves[..|saves| - 1], f, mem), now)
  {
    var s, rest, sp := saves[|saves| - 1], saves[..|saves| - 1], f.core[SP];
    ghost var low, earlier := sp - Depth(saves), Prologue(rest, f, mem);
    forall a: nat | Uses(rest, sp, a) ensures now(a) == earlier(a) {
      assert Uses(saves, sp, a) && !Writes(s, low, a);
      StoreElsewhere(s, f, earlier, low, a);
    }
  }

  lemma StoreElsewhere(s: Save, f: File, earlier: Memory, low: nat, a: nat)
    requires Sized(f) && Sensible(s) && !Writes(s, low, a)
    ensures Store(earlier, low, WordsOf(s, f))(a) == earlier(a)
  {
    WrittenIs(s, f);
  }

  lemma LastWritten(saves: seq<Save>, sp: word32, low: int, was: Memory, now: Memory)
    requires saves != [] && low == sp - Depth(saves) && Intact(saves, sp, was, now)
    ensures Wrote(saves[|saves| - 1], low, was, now)
  {
    forall a: nat | Writes(saves[|saves| - 1], low, a) ensures now(a) == was(a) { assert Uses(saves, sp, a); }
  }

  // ---------- A pop that fails ----------

  /**
   Extended pops reach only the first sixteen doubles, and nobody looks at
   whether they fail. SP moves past what was pushed exactly if they do not.
   */
  lemma {:induction false} PopPairsMovesIff(i: nat, end: nat, sp: word32, f: File, mem: Memory)
    requires Sized(f) && i <= end && i <= 16 && 8 * (end - i) + 4 < TWO32 && f.core[SP] == sp
    ensures PopPairs(i, end, true, sp, f, mem).core[SP] == Wrap32(sp + 8 * (end - i) + 4) <==> end <= 16
  {
    if end <= 16 {
      PopPairsMoves(i, end, sp, f, mem);
    } else {
      PopPairsStays(i, end, sp, f, mem);
      NotBack(sp, 8 * (end - i) + 4);
    }
  }

  lemma NotBack(sp: word32, n: nat)
    requires 0 < n < TWO32
    ensures Wrap32(sp + n) != sp
  {
  }

  lemma {:induction false} PopPairsMoves(i: nat, end: nat, sp: word32, f: File, mem: Memory)
    requires Sized(f) && i <= end <= 16
    ensures PopPairs(i, end, true, sp, f, mem).core[SP] == Wrap32(sp + 8 * (end - i) + 4)
    decreases end - i
  {
    if i < end {
      PopPairsMoves(i + 1, end, Wrap32(sp + 8), f.(doubles := f.doubles[i := DoubleAt(sp, mem)]), mem);
      WrapAdd(sp + 8, 8 * (end - (i + 1)) + 4);
    }
  }

  lemma {:induction false} PopPairsStays(i: nat, end: nat, sp: word32, f: File, mem: Memory)
    requires Sized(f) && i <= 16 < end
    ensures PopPairs(i, end, true, sp, f, mem).core == f.core
    decreases end - i
  {
    if i < 16 {
      PopPairsStays(i + 1, end, Wrap32(sp + 8), f.(doubles := f.doubles[i := DoubleAt(sp, mem)]), mem);
    }
  }

  /** The code 0xB3 with operand `v`, which pops `v % 16 + 1` doubles from number `v / 16` on. */
  lemma ExtendedPopDecodes(v: byte)
    ensures Decode([0xB3, v], 0, 2) == Instruction(PopDoubles(v / 16, v % 16 + 1, true), 2)
  {
    assert [0xB3, v][0] == 0xB3 && [0xB3, v][1] == v;
  }

  /**
   So data that consists of this code is interpreted to the end, whatever its
   operand: it never fails. SP moves past what was pushed if and only if the
   registers exist; otherwise it stays where it was.
   */
  lemma FailedPopGoesOn(v: byte, f: File, mem: Memory)
    requires Sized(f)
    ensures var o, sp, count := Interpret([0xB3, v], 0, 2, f, mem, false), f.core[SP], v % 16 + 1;
            && o.Continue? && Sized(o.file)
            && (o.file.core[SP] == Wrap32(sp + 8 * count + 4) <==> v / 16 + count <= 16)
            && (v / 16 + count > 16 ==> o.file.core[SP] == sp)
  {
    var first, count := v / 16, v % 16 + 1;
    ExtendedPopDecodes(v);
    InterpretsOne(PopDoubles(first, count, true), [0xB3, v], f, mem);
    PopPairsMovesIff(first, first + count, f.core[SP], f, mem);
    if first + count > 16 { PopPairsStays(first, first + count, f.core[SP], f, mem); }
  }

  lemma InterpretsOne(i: Instr, bytes: seq<byte>, f: File, mem: Memory)
    requires Sized(f) && bytes != [] && Decode(bytes, 0, |bytes|) == Instruction(i, |bytes|) && !i.Finish?
    ensures Interpret(bytes, 0, |bytes|, f, mem, false) == Finished(Exec(i, f, mem), PopsPc(i))
  {
    assert Interpret(bytes, |bytes|, |bytes|, Exec(i, f, mem), mem, PopsPc(i)) == Finished(Exec(i, f, mem), PopsPc(i));
  }

  /** Popping two doubles from number 15 on: SP has not moved, and unwinding goes on. */
  lemma PopOfMissingDouble(f: File, mem: Memory)
    requires Sized(f)
    ensures var o := Interpret([0xB3, 0xF1], 0, 2, f, mem, false); o.Continue? && Sized(o.file) && o.file.core[SP] == f.core[SP]
  {
    FailedPopGoesOn(0xF1, f, mem);
  }
}
