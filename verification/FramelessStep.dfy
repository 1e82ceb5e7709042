/**
 Stepping out of an x86-64 function without a frame pointer: what it does to
 the registers, and that it undoes the function's prologue.
 */
module FramelessStep {
  import opened Permutations
  import opened Words
  import opened Wrappers

  datatype Memory = Memory(get32: nat -> word32, get64: nat -> word64)

  /** The sixteen general registers, in DWARF's order, and the instruction pointer. */
  datatype File = File(general: seq<word64>, ip: word64)

  const RSP: nat := 7

  predicate Sized(f: File) { |f.general| == 16 }

  /** The general register of a number from 1 to 6: RBX, R12 to R15, RBP. */
  function General(u: nat): (g: nat)
    requires 1 <= u <= REGISTERS
    ensures g < 16 && g != RSP
  {
    if u == 1 then 3 else if u == 6 then 6 else u + 10
  }

  // ---------- The encoding ----------

  function StackSizeField(e: word32): nat { e / 0x1_0000 % 0x100 }

  function AdjustField(e: word32): nat { e / 0x2000 % 8 }

  function CountField(e: word32): nat { e / 0x400 % 8 }

  function PermutationField(e: word32): nat { e % 0x400 }

  lemma Fields(high: nat, low: nat, base: nat)
    requires low < base && (base == 8 || base == 0x400)
    ensures (high * base + low) / base == high && (high * base + low) % base == low
  {
    if base == 8 { } else { }
  }

  lemma FieldsOf(e: nat)
    ensures e / 0x2000 == e / 0x400 / 8 && e / 0x1_0000 == e / 0x400 / 8 / 8
  {
  }

  /** The low 24 bits of an encoding. */
  function Encoding(size: nat, adjust: nat, count: nat, permutation: nat): (e: word32)
    requires size < 0x100 && adjust < 8 && count < 8 && permutation < 0x400
    ensures StackSizeField(e) == size && AdjustField(e) == adjust && CountField(e) == count && PermutationField(e) == permutation
  {
    Fields((size * 8 + adjust) * 8 + count, permutation, 0x400);
    Fields(size * 8 + adjust, count, 8);
    Fields(size, adjust, 8);
    FieldsOf(((size * 8 + adjust) * 8 + count) * 0x400 + permutation);
    ((size * 8 + adjust) * 8 + count) * 0x400 + permutation
  }

  /** In units of eight bytes, or in an instruction of the function and adjusted. */
  function StackSize(e: word32, functionStart: nat, mem: Memory, indirect: bool): nat {
    if indirect then (mem.get32(functionStart + StackSizeField(e)) + 8 * AdjustField(e)) % TWO32 else StackSizeField(e) * 8
  }

  // ---------- The step ----------

  datatype Outcome = Stepped(file: File) | Undefined

  predicate InRange(regs: seq<nat>) { forall k :: 0 <= k < |regs| ==> 1 <= regs[k] <= REGISTERS }

  /** Loads the registers from consecutive slots. */
  function Load(regs: seq<nat>, base: word64, f: File, mem: Memory): (r: File)
    requires Sized(f) && InRange(regs)
    ensures Sized(r)
  {
    if regs == [] then f
    else
      var n := |regs| - 1;
      var before := Load(regs[..n], base, f, mem);
      before.(general := before.general[General(regs[n]) := mem.get64(Wrap64(base + 8 * n))])
  }

  /** Takes the return address from its slot. */
  function Return(slot: word64, f: File, mem: Memory): (r: File)
    requires Sized(f)
    ensures Sized(r)
  {
    File(f.general[RSP := Wrap64(slot + 8)], mem.get64(slot))
  }

  lemma {:induction false} RegistersInRange(ds: seq<int>)
    ensures Registers(ds).Some? ==> InRange(Registers(ds).value) && |Registers(ds).value| == |ds|
  {
    if ds != [] {
      RegistersInRange(ds[..|ds| - 1]);
      var before := Registers(ds[..|ds| - 1]);
      if before.Some? { PickIsUnused(SetOf(before.value), 1, if ds[|ds| - 1] < 0 then 0 else ds[|ds| - 1]); PickNegative(SetOf(before.value), 1, ds[|ds| - 1]); }
    }
  }

  lemma {:induction false} PickNegative(used: set<nat>, u: nat, d: int)
    requires 1 <= u <= REGISTERS + 1
    ensures Pick(used, u, d).Some? ==> 1 <= Pick(used, u, d).value <= REGISTERS
    decreases REGISTERS + 1 - u
  {
    if u <= REGISTERS {
      if u in used { PickNegative(used, u + 1, d); } else if d != 0 { PickNegative(used, u + 1, d - 1); }
    }
  }

  /** The registers an encoding names; a count of seven, or a number that stands for no order, names none. */
  function Saved(e: word32): (regs: Option<seq<nat>>)
    ensures regs.Some? ==> InRange(regs.value)
  {
    if CountField(e) == 7 then None
    else
      RegistersInRange(Digits(CountField(e), PermutationField(e)));
      Decode(CountField(e), PermutationField(e))
  }

  /** The return address is at the top of the function's stack, the registers right below. */
  function StepWith(regs: Option<seq<nat>>, size: nat, f: File, mem: Memory): Outcome
    requires Sized(f) && (regs.Some? ==> InRange(regs.value))
  {
    match regs
    case None => Undefined
    case Some(rs) =>
      var base := Wrap64(f.general[RSP] + size - 8 - 8 * |rs|);
      Stepped(Return(Wrap64(base + 8 * |rs|), Load(rs, base, f, mem), mem))
  }

  function Step(e: word32, functionStart: nat, f: File, mem: Memory, indirect: bool): Outcome
    requires Sized(f)
  {
    StepWith(Saved(e), StackSize(e, functionStart, mem, indirect), f, mem)
  }

  // ---------- The prologue ----------

  function Updated(get: nat -> word64, address: nat, value: word64, a: nat): word64 {
    if a == address then value else get(a)
  }

  function Store(mem: Memory, address: nat, value: word64): Memory {
    mem.(get64 := (a: nat) => Updated(mem.get64, address, value, a))
  }

  /** Pushes the last register first, from just below `top`. */
  function Pushed(regs: seq<nat>, top: nat, f: File, mem: Memory): Memory
    requires Sized(f) && InRange(regs) && 8 * |regs| <= top
  {
    if regs == [] then mem
    else Store(Pushed(regs[1..], top, f, mem), top - 8 * |regs|, f.general[General(regs[0])])
  }

  /** The call pushes the return address, then the function its registers. */
  function Prologue(regs: seq<nat>, returnAddress: word64, f: File, mem: Memory): Memory
    requires Sized(f) && InRange(regs) && 8 * |regs| + 8 <= f.general[RSP]
  {
    var top := f.general[RSP] - 8;
    Pushed(regs, top, f, Store(mem, top, returnAddress))
  }

  lemma {:induction false} PushedAt(regs: seq<nat>, top: nat, f: File, mem: Memory, k: nat)
    requires Sized(f) && InRange(regs) && 8 * |regs| <= top && k < |regs|
    ensures Pushed(regs, top, f, mem).get64(top - 8 * |regs| + 8 * k) == f.general[General(regs[k])]
  {
    if k > 0 { PushedAt(regs[1..], top, f, mem, k - 1); }
  }

  lemma {:induction false} PushedElsewhere(regs: seq<nat>, top: nat, f: File, mem: Memory, a: nat)
    requires Sized(f) && InRange(regs) && 8 * |regs| <= top <= a
    ensures Pushed(regs, top, f, mem).get64(a) == mem.get64(a)
  {
    if regs != [] { PushedElsewhere(regs[1..], top, f, mem, a); }
  }

  predicate Saves(regs: seq<nat>, g: nat)
    requires InRange(regs)
  {
    exists k :: 0 <= k < |regs| && General(regs[k]) == g
  }

  /** Loading gives every register of the list the value of its slot, and the others keep theirs. */
  lemma {:induction false} LoadIs(regs: seq<nat>, base: word64, f: File, mem: Memory, before: File)
    requires Sized(f) && Sized(before) && InRange(regs) && DistinctRegisters(regs)
    requires forall k :: 0 <= k < |regs| ==> mem.get64(Wrap64(base + 8 * k)) == before.general[General(regs[k])]
    ensures var r := Load(regs, base, f, mem);
            && r.ip == f.ip
            && forall g :: 0 <= g < 16 ==> r.general[g] == if Saves(regs, g) then before.general[g] else f.general[g]
  {
    if regs != [] {
      var n := |regs| - 1;
      var rest := regs[..n];
      assert DistinctRegisters(rest);
      LoadIs(rest, base, f, mem, before);
      forall g | 0 <= g < 16 ensures Saves(regs, g) == (Saves(rest, g) || General(regs[n]) == g) {
        if Saves(rest, g) { var k :| 0 <= k < n && General(rest[k]) == g; assert General(regs[k]) == g; }
        if Saves(regs, g) { var k :| 0 <= k < |regs| && General(regs[k]) == g; assert k == n || General(rest[k]) == g; }
      }
    }
  }

  /** Memory from `low` up to `high` is as it was. */
  predicate Unchanged(was: Memory, now: Memory, low: int, high: int) {
    forall a: nat :: low <= a < high ==> now.get64(a) == was.get64(a)
  }

  /** The slots below `top` hold the return address and the registers. */
  predicate SlotsAre(regs: seq<nat>, returnAddress: word64, before: File, now: Memory)
    requires Sized(before) && InRange(regs) && 8 * |regs| + 8 <= before.general[RSP]
  {
    && now.get64(before.general[RSP] - 8) == returnAddress
    && forall k :: 0 <= k < |regs| ==> now.get64(before.general[RSP] - 8 - 8 * |regs| + 8 * k) == before.general[General(regs[k])]
  }

  /** `f` is `start` with the saved registers, the stack pointer and the return address of `before` the call. */
  predicate Returned(o: Outcome, regs: seq<nat>, returnAddress: word64, before: File, start: File)
    requires Sized(before) && Sized(start) && InRange(regs)
  {
    && o.Stepped? && Sized(o.file) && o.file.ip == returnAddress
    && forall g :: 0 <= g < 16 ==>
         o.file.general[g] == if g == RSP || Saves(regs, g) then before.general[g] else start.general[g]
  }

  lemma StepRestores(regs: seq<nat>, returnAddress: word64, before: File, start: File, now: Memory, size: nat)
    requires DistinctRegisters(regs) && InRange(regs)
    requires Sized(before) && Sized(start) && 8 * |regs| + 8 <= before.general[RSP]
    requires start.general[RSP] == Wrap64(before.general[RSP] - size)
    requires SlotsAre(regs, returnAddress, before, now)
    ensures Returned(StepWith(Some(regs), size, start, now), regs, returnAddress, before, start)
  {
    var base: word64 := before.general[RSP] - 8 - 8 * |regs|;
    WithBase(regs, size, start, now, before.general[RSP], base);
    LoadsBack(regs, returnAddress, base, before, start, now);
  }

  lemma WithBase(regs: seq<nat>, size: nat, f: File, mem: Memory, top: word64, base: word64)
    requires Sized(f) && InRange(regs) && f.general[RSP] == Wrap64(top - size) && base == top - 8 - 8 * |regs|
    ensures StepWith(Some(regs), size, f, mem) == Stepped(Return(Wrap64(base + 8 * |regs|), Load(regs, base, f, mem), mem))
  {
    BaseIs(f.general[RSP], top, size, 8 + 8 * |regs|);
  }

  /** The encoding of a choice of registers names them. */
  lemma EncodingNames(e: word32, regs: seq<nat>)
    requires DistinctRegisters(regs) && |regs| <= 6 && CountField(e) == |regs| && PermutationField(e) == Encode(regs)
    ensures Saved(e) == Some(regs)
  {
    DecodeOfEncode(regs);
  }

  /** Any encoding that names registers names different ones. */
  lemma NamesAreDistinct(e: word32)
    requires Saved(e).Some?
    ensures DistinctRegisters(Saved(e).value) && |Saved(e).value| <= 6
  {
    var count := CountField(e);
    if count == 0 {
      assert Saved(e).value == [];
    } else {
      DecodesIff(count, PermutationField(e));
    }
  }

  lemma StepFindsSlots(regs: seq<nat>, returnAddress: word64, before: File, start: File, now: Memory,
                       e: word32, functionStart: nat, indirect: bool)
    requires Saved(e) == Some(regs)
    requires Sized(before) && Sized(start) && 8 * |regs| + 8 <= before.general[RSP]
    requires start.general[RSP] == Wrap64(before.general[RSP] - StackSize(e, functionStart, now, indirect))
    requires SlotsAre(regs, returnAddress, before, now)
    ensures Returned(Step(e, functionStart, start, now, indirect), regs, returnAddress, before, start)
  {
    NamesAreDistinct(e);
    StepRestores(regs, returnAddress, before, start, now, StackSize(e, functionStart, now, indirect));
  }

  /**
   For every choice and order of saved registers, every register file, memory
   and stack size: the step gives back exactly the saved registers, the stack
   pointer before the call and the return address, and touches nothing else.
   */
  lemma StepUndoesPrologue(regs: seq<nat>, returnAddress: word64, before: File, mem: Memory, start: File, now: Memory,
                           e: word32, functionStart: nat, indirect: bool)
    requires Saved(e) == Some(regs)
    requires Sized(before) && Sized(start) && 8 * |regs| + 8 <= before.general[RSP]
    requires start.general[RSP] == Wrap64(before.general[RSP] - StackSize(e, functionStart, now, indirect))
    requires var top := before.general[RSP];
             Unchanged(Prologue(regs, returnAddress, before, mem), now, top - 8 * |regs| - 8, top)
    ensures Returned(Step(e, functionStart, start, now, indirect), regs, returnAddress, before, start)
  {
    SlotsHold(regs, returnAddress, before, mem, now);
    StepFindsSlots(regs, returnAddress, before, start, now, e, functionStart, indirect);
  }

  /** The saved slots and the return address, where the step looks for them. */
  lemma SlotsHold(regs: seq<nat>, returnAddress: word64, before: File, mem: Memory, now: Memory)
    requires Sized(before) && InRange(regs) && 8 * |regs| + 8 <= before.general[RSP]
    requires Unchanged(Prologue(regs, returnAddress, before, mem), now, before.general[RSP] - 8 * |regs| - 8, before.general[RSP])
    ensures SlotsAre(regs, returnAddress, before, now)
  {
    var was := Prologue(regs, returnAddress, before, mem);
    PrologueSlots(regs, returnAddress, before, mem);
    forall k | 0 <= k < |regs| ensures now.get64(before.general[RSP] - 8 - 8 * |regs| + 8 * k) == before.general[General(regs[k])] {
      assert was.get64(before.general[RSP] - 8 - 8 * |regs| + 8 * k) == before.general[General(regs[k])];
    }
  }

  lemma PrologueSlots(regs: seq<nat>, returnAddress: word64, before: File, mem: Memory)
    requires Sized(before) && InRange(regs) && 8 * |regs| + 8 <= before.general[RSP]
    ensures SlotsAre(regs, returnAddress, before, Prologue(regs, returnAddress, before, mem))
  {
    var top, called := before.general[RSP] - 8, Store(mem, before.general[RSP] - 8, returnAddress);
    forall k | 0 <= k < |regs| ensures Pushed(regs, top, before, called).get64(top - 8 * |regs| + 8 * k) == before.general[General(regs[k])] {
      PushedAt(regs, top, before, called, k);
    }
    PushedElsewhere(regs, top, before, called, top);
  }

  lemma LoadsBack(regs: seq<nat>, returnAddress: word64, base: word64, before: File, start: File, now: Memory)
    requires DistinctRegisters(regs) && InRange(regs) && Sized(before) && Sized(start) && 8 * |regs| + 8 <= before.general[RSP]
    requires base == before.general[RSP] - 8 - 8 * |regs| && SlotsAre(regs, returnAddress, before, now)
    ensures Returned(Stepped(Return(Wrap64(base + 8 * |regs|), Load(regs, base, start, now), now)), regs, returnAddress, before, start)
  {
    SlotsWrapped(regs, base, before, returnAddress, now);
    LoadIs(regs, base, start, now, before);
  }

  lemma SlotsWrapped(regs: seq<nat>, base: word64, before: File, returnAddress: word64, now: Memory)
    requires Sized(before) && InRange(regs) && 8 * |regs| + 8 <= before.general[RSP]
    requires base == before.general[RSP] - 8 - 8 * |regs| && SlotsAre(regs, returnAddress, before, now)
    ensures now.get64(Wrap64(base + 8 * |regs|)) == returnAddress && Wrap64(Wrap64(base + 8 * |regs|) + 8) == before.general[RSP]
    ensures forall k :: 0 <= k < |regs| ==> now.get64(Wrap64(base + 8 * k)) == before.general[General(regs[k])]
  {
    forall k | 0 <= k < |regs| ensures now.get64(Wrap64(base + 8 * k)) == before.general[General(regs[k])] {
      assert now.get64(before.general[RSP] - 8 - 8 * |regs| + 8 * k) == before.general[General(regs[k])];
    }
  }

  // ---------- Registers by name ----------

  /** The registers a function may have to keep, with their numbers in an encoding and in DWARF. */
  datatype Kept = RBX | R12 | R13 | R14 | R15 | RBP

  function Number(r: Kept): nat {
    match r
    case RBX => 1
    case R12 => 2
    case R13 => 3
    case R14 => 4
    case R15 => 5
    case RBP => 6
  }

  function Place(r: Kept): nat {
    match r
    case RBX => 3
    case R12 => 12
    case R13 => 13
    case R14 => 14
    case R15 => 15
    case RBP => 6
  }

  function Numbers(rs: seq<Kept>): (ns: seq<nat>)
    ensures |ns| == |rs| && forall k :: 0 <= k < |rs| ==> ns[k] == Number(rs[k])
    ensures InRange(ns)
  {
    seq(|rs|, k requires 0 <= k < |rs| => Number(rs[k]))
  }

  predicate Distinct(rs: seq<Kept>) { forall j, k :: 0 <= j < k < |rs| ==> rs[j] != rs[k] }

  predicate AmongPlaces(rs: seq<Kept>, g: nat) { exists k :: 0 <= k < |rs| && Place(rs[k]) == g }

  lemma NumbersName(rs: seq<Kept>, g: nat)
    ensures Saves(Numbers(rs), g) <==> AmongPlaces(rs, g)
  {
    var ns := Numbers(rs);
    forall k | 0 <= k < |rs| ensures General(ns[k]) == Place(rs[k]) { }
    if AmongPlaces(rs, g) { var k :| 0 <= k < |rs| && Place(rs[k]) == g; assert General(ns[k]) == g; }
    if Saves(ns, g) { var k :| 0 <= k < |ns| && General(ns[k]) == g; assert Place(rs[k]) == g; }
  }

  lemma {:induction false} NumbersDiffer(rs: seq<Kept>)
    requires Distinct(rs)
    ensures DistinctRegisters(Numbers(rs))
  {
    if rs != [] {
      var n := |rs| - 1;
      NumbersDiffer(rs[..n]);
      assert Numbers(rs)[..n] == Numbers(rs[..n]);
      assert forall r :: r in rs[..n] ==> r != rs[n];
    }
  }

  /** The stack a function takes: eight bytes for each unit of the field, or what its instruction at that distance takes and eight for each unit of adjustment. */
  predicate Takes(size: nat, field: nat, adjust: nat, functionStart: nat, mem: Memory, indirect: bool) {
    if indirect then size < TWO32 && size == mem.get32(functionStart + field) + 8 * adjust else size == 8 * field
  }

  lemma EncodingFor(rs: seq<Kept>, field: nat, adjust: nat) returns (e: word32)
    requires Distinct(rs) && |rs| <= 6 && field < 0x100 && adjust < 8
    ensures DistinctRegisters(Numbers(rs)) && Encode(Numbers(rs)) < 0x400
    ensures e == Encoding(field, adjust, |rs|, Encode(Numbers(rs))) && Saved(e) == Some(Numbers(rs))
  {
    NumbersDiffer(rs);
    DecodeOfEncode(Numbers(rs));
    e := Encoding(field, adjust, |rs|, Encode(Numbers(rs)));
    EncodingNames(e, Numbers(rs));
  }

  lemma StackSizeIs(e: word32, size: nat, functionStart: nat, mem: Memory, indirect: bool)
    requires Takes(size, StackSizeField(e), AdjustField(e), functionStart, mem, indirect)
    ensures StackSize(e, functionStart, mem, indirect) == size
  {
  }

  /** The registers and the return address are as before the call, the other registers as at the start of the step. */
  predicate Left(o: Outcome, rs: seq<Kept>, returnAddress: word64, before: File, start: File)
    requires Sized(before) && Sized(start)
  {
    && o.Stepped? && Sized(o.file) && o.file.ip == returnAddress
    && o.file.general[RSP] == before.general[RSP]
    && forall g :: 0 <= g < 16 && g != RSP ==> o.file.general[g] == if AmongPlaces(rs, g) then before.general[g] else start.general[g]
  }

  lemma ReturnedIsLeft(o: Outcome, rs: seq<Kept>, returnAddress: word64, before: File, start: File)
    requires Sized(before) && Sized(start) && Returned(o, Numbers(rs), returnAddress, before, start)
    ensures Left(o, rs, returnAddress, before, start)
  {
    forall g: nat ensures Saves(Numbers(rs), g) <==> AmongPlaces(rs, g) { NumbersName(rs, g); }
  }

  lemma StepLeaves(rs: seq<Kept>, ns: seq<nat>, e: word32, returnAddress: word64, before: File, mem: Memory, start: File, now: Memory,
                   size: nat, functionStart: nat, indirect: bool)
    requires ns == Numbers(rs) && Saved(e) == Some(ns) && StackSize(e, functionStart, now, indirect) == size
    requires Sized(before) && Sized(start) && 8 * |ns| + 8 <= before.general[RSP]
    requires start.general[RSP] == Wrap64(before.general[RSP] - size)
    requires Unchanged(Prologue(ns, returnAddress, before, mem), now, before.general[RSP] - 8 * |ns| - 8, before.general[RSP])
    ensures Left(Step(e, functionStart, start, now, indirect), rs, returnAddress, before, start)
  {
    StepUndoesPrologue(ns, returnAddress, before, mem, start, now, e, functionStart, indirect);
    ReturnedIsLeft(Step(e, functionStart, start, now, indirect), rs, returnAddress, before, start);
  }

  /**
   A function that keeps some of these registers, in any order and with any
   stack: by the encoding for it the step gives each of them back, the stack
   pointer before the call and the return address, and touches nothing else.
   */
  lemma FunctionIsLeft(rs: seq<Kept>, returnAddress: word64, before: File, mem: Memory, start: File, now: Memory,
                       size: nat, field: nat, adjust: nat, functionStart: nat, indirect: bool)
    requires Distinct(rs) && |rs| <= 6 && field < 0x100 && adjust < 8
    requires Takes(size, field, adjust, functionStart, now, indirect)
    requires Sized(before) && Sized(start) && 8 * |rs| + 8 <= before.general[RSP]
    requires start.general[RSP] == Wrap64(before.general[RSP] - size)
    requires var top := before.general[RSP];
             Unchanged(Prologue(Numbers(rs), returnAddress, before, mem), now, top - 8 * |rs| - 8, top)
    ensures DistinctRegisters(Numbers(rs)) && Encode(Numbers(rs)) < 0x400
    ensures Left(Step(Encoding(field, adjust, |rs|, Encode(Numbers(rs))), functionStart, start, now, indirect), rs, returnAddress, before, start)
  {
    var e := EncodingFor(rs, field, adjust);
    StackSizeIs(e, size, functionStart, now, indirect);
    StepLeaves(rs, Numbers(rs), e, returnAddress, before, mem, start, now, size, functionStart, indirect);
  }

  lemma BaseIs(sp: word64, top: word64, size: nat, n: nat)
    requires sp == Wrap64(top - size) && n <= top
    ensures Wrap64(sp + size - n) == top - n
  {
    var q := (top - size) / TWO64;
    assert sp + size - n == -q * TWO64 + (top - n);
    WrapMultiple(-q, top - n);
  }
}
