/**
 The unwinding instructions of the ARM exception handling ABI (section 9.3, in
 the numbering the sources use): what each does to the virtual registers, and
 the proof that they undo a prologue.
 */
module EhabiOpcodes {
  import opened Leb128
  import opened Words

  const SP: nat := 13
  const LR: nat := 14
  const PC: nat := 15

  /** The virtual registers. */
  datatype File = File(core: seq<word32>, doubles: seq<word64>, pac: word32)

  predicate Sized(f: File) { |f.core| == 16 && |f.doubles| == 32 }

  /** The word at every address. */
  type Memory = nat -> word32

  function Add32(a: int, b: int): word32 { Wrap32(a + b) }

  lemma WrapAdd(a: int, b: int)
    ensures Wrap32(Wrap32(a) + b) == Wrap32(a + b)
  {
    var q := a / TWO32;
    assert a + b == q * TWO32 + (Wrap32(a) + b);
    WrapMultiple32(q, Wrap32(a) + b);
  }

  predicate HasBit(mask: nat, i: nat) {
    if i == 0 then mask % 2 == 1 else HasBit(mask / 2, i - 1)
  }

  // ---------- Instructions ----------

  datatype Instr =
    | AddSp(amount: nat)
    | SubSp(amount: nat)
    | PopCore(mask: nat)
    | SetSp(reg: nat)
    | PopDoubles(first: nat, count: nat, extended: bool)
    | PopPac
    | Finish

  /** An instruction and the offset after it; one the interpreter refuses; or one that reads past the data or has no meaning. */
  datatype Decoding = Instruction(instr: Instr, next: nat) | Refused | Beyond

  /** The registers r4 to r4 + n. */
  function RangeMask(n: nat): nat {
    if n == 0 then 16 else 2 * RangeMask(n - 1) + 16
  }

  function Decode(bytes: seq<byte>, offset: nat, len: nat): (d: Decoding)
    requires offset < len <= |bytes|
    ensures d.Instruction? ==> d.next > offset
  {
    var b: nat, q := bytes[offset], offset + 1;
    if b < 0x40 then Instruction(AddSp(b * 4 + 4), q)
    else if b < 0x80 then Instruction(SubSp(b % 0x40 * 4 + 4), q)
    else if b < 0xB0 then DecodeCore(bytes, b, q, len)
    else if b < 0xC0 then DecodeB(bytes, b, q, len)
    else DecodeVfp(bytes, b, q)
  }

  function DecodeCore(bytes: seq<byte>, b: nat, q: nat, len: nat): (d: Decoding)
    requires 0x80 <= b < 0xB0 && q <= len <= |bytes|
    ensures d.Instruction? ==> d.next >= q
  {
    if b < 0x90 then
      if q >= len then Refused
      else
        var low: nat := bytes[q];
        var mask := b % 16 * 4096 + low * 16;
        if mask == 0 then Refused else Instruction(PopCore(mask), q + 1)
    else if b < 0xA0 then
      if b % 16 == SP || b % 16 == PC then Refused else Instruction(SetSp(b % 16), q)
    else Instruction(PopCore(RangeMask(b % 8) + if b >= 0xA8 then 0x4000 else 0), q)
  }

  function DecodeVfp(bytes: seq<byte>, b: nat, q: nat): (d: Decoding)
    requires 0xC0 <= b < 0x100 && q <= |bytes|
    ensures d.Instruction? ==> d.next >= q
  {
    if b == 0xC8 || b == 0xC9 then
      if q >= |bytes| then Beyond
      else
        var first := (if b == 0xC8 then 16 else 0) + bytes[q] / 16;
        if first + bytes[q] % 16 >= 32 then Refused else Instruction(PopDoubles(first, bytes[q] % 16 + 1, false), q + 1)
    else if 0xD0 <= b < 0xD8 then Instruction(PopDoubles(8, b % 8 + 1, false), q)
    else Refused
  }

  function DecodeB(bytes: seq<byte>, b: nat, q: nat, len: nat): (d: Decoding)
    requires 0xB0 <= b < 0xC0 && q <= len <= |bytes|
    ensures d.Instruction? ==> d.next >= q
  {
    if b == 0xB0 then Instruction(Finish, q)
    else if b == 0xB1 then
      if q >= len || bytes[q] >= 16 || bytes[q] == 0 then Refused else Instruction(PopCore(bytes[q]), q + 1)
    else if b == 0xB2 then
      var n := Length(bytes, q, len);
      if n == 0 && len - q <= 5 then Refused
      else if n == 0 || n > 5 then Beyond
      else Instruction(AddSp(0x204 + Unsigned(bytes[q..q + n]) % TWO32 * 4), q + n)
    else if b == 0xB3 then
      if q >= |bytes| then Beyond else Instruction(PopDoubles(bytes[q] / 16, bytes[q] % 16 + 1, true), q + 1)
    else if b == 0xB4 then Instruction(PopPac, q)
    else if b < 0xB8 then Refused
    else Instruction(PopDoubles(8, b % 8 + 1, true), q)
  }

  // ---------- What they do ----------

  function WithSp(f: File, sp: word32): File
    requires Sized(f)
  {
    f.(core := f.core[SP := sp])
  }

  /** The registers of a mask. */
  function BitsOf(mask: nat): set<nat> { set r: nat | r < 16 && HasBit(mask, r) }

  /** Pops the registers from the `i`-th on; a popped SP is kept. */
  function PopWords(regs: set<nat>, i: nat, sp: word32, f: File, mem: Memory): (r: File)
    requires Sized(f) && i <= 16
    ensures Sized(r)
    decreases 16 - i
  {
    if i == 16 then (if SP in regs then f else WithSp(f, sp))
    else if i in regs then PopWords(regs, i + 1, Wrap32(sp + 4), f.(core := f.core[i := mem(sp)]), mem)
    else PopWords(regs, i + 1, sp, f, mem)
  }

  /** A double is two words, the low one first. */
  function DoubleAt(sp: word32, mem: Memory): word64 { mem(Wrap32(sp + 4)) * TWO32 + mem(sp) }

  /**
   Pops doubles up to `end`. Extended pops reach register 15, others 31; one
   beyond fails: it leaves SP alone, and nobody is told.
   */
  function PopPairs(i: nat, end: nat, extended: bool, sp: word32, f: File, mem: Memory): (r: File)
    requires Sized(f) && i <= end
    ensures Sized(r)
    decreases end - i
  {
    if i == end then WithSp(f, if extended then Wrap32(sp + 4) else sp)
    else if i > (if extended then 15 else 31) then f
    else PopPairs(i + 1, end, extended, Wrap32(sp + 8), f.(doubles := f.doubles[i := DoubleAt(sp, mem)]), mem)
  }

  function Exec(i: Instr, f: File, mem: Memory): (r: File)
    requires Sized(f)
    ensures Sized(r)
  {
    var sp := f.core[SP];
    match i
    case AddSp(n) => WithSp(f, Wrap32(sp + n))
    case SubSp(n) => WithSp(f, Wrap32(sp - n))
    case PopCore(mask) => PopWords(BitsOf(mask), 0, sp, f, mem)
    case SetSp(reg) => if reg < 16 then WithSp(f, f.core[reg]) else f
    case PopDoubles(first, count, extended) => PopPairs(first, first + count, extended, sp, f, mem)
    case PopPac => WithSp(f, Wrap32(sp + 4)).(pac := mem(sp))
    case Finish => f
  }

  datatype Outcome = Continue(file: File) | Failure | Fault

  predicate PopsPc(i: Instr) { i.PopCore? && PC in BitsOf(i.mask) }

  /** At the end the return address goes to PC, unless PC was popped. */
  function Finished(f: File, wrotePc: bool): (o: Outcome)
    requires Sized(f)
  {
    Continue(if wrotePc then f else f.(core := f.core[PC := f.core[LR]]))
  }

  function Interpret(bytes: seq<byte>, offset: nat, len: nat, f: File, mem: Memory, wrotePc: bool): Outcome
    requires Sized(f) && len <= |bytes|
    decreases len - offset, 1
  {
    if offset >= len then Finished(f, wrotePc)
    else InterpretAs(Decode(bytes, offset, len), bytes, offset, len, f, mem, wrotePc)
  }

  /** Goes on after the instruction at `offset`. */
  function InterpretAs(d: Decoding, bytes: seq<byte>, offset: nat, len: nat, f: File, mem: Memory, wrotePc: bool): Outcome
    requires Sized(f) && len <= |bytes| && offset < len && (d.Instruction? ==> d.next > offset)
    decreases len - offset, 0
  {
    match d
    case Refused => Failure
    case Beyond => Fault
    case Instruction(i, next) =>
      if i.Finish? then Finished(f, wrotePc)
      else Interpret(bytes, next, len, Exec(i, f, mem), mem, wrotePc || PopsPc(i))
  }

  // ---------- Prologues ----------

  /** What a prologue does, in order: push registers, move SP, or copy it to a register that serves as frame pointer. */
  datatype Save =
    | PushCore(mask: nat)
    | PushDoubles(first: nat, count: nat, extended: bool)
    | PushPac
    | Lower(amount: nat)
    | Raise(amount: nat)
    | SetFrame(reg: nat)

  /** Sets of registers: not SP, and the scratch registers apart from the others. */
  predicate Sensible(s: Save) {
    match s
    case PushCore(mask) => 0 < mask < 0x1_0000 && SP !in BitsOf(mask) && (mask < 16 || mask % 16 == 0)
    case PushDoubles(first, count, extended) => 0 < count && first + count <= if extended then 16 else 32
    case SetFrame(reg) => reg < 16 && reg != SP && reg != PC
    case _ => true
  }

  function Count(regs: set<nat>, i: nat): nat
    requires i <= 16
    decreases 16 - i
  {
    if i == 16 then 0 else (if i in regs then 1 else 0) + Count(regs, i + 1)
  }

  /** How far a save lowers SP. */
  function Room(s: Save): int {
    match s
    case PushCore(mask) => 4 * Count(BitsOf(mask), 0)
    case PushDoubles(_, count, extended) => 8 * count + if extended then 4 else 0
    case PushPac => 4
    case Lower(amount) => amount
    case Raise(amount) => 0 - amount as int
    case SetFrame(_) => 0
  }

  /** Memory holds the registers from the `i`-th on, from `sp` up. */
  predicate HoldsCore(regs: set<nat>, i: nat, sp: word32, f: File, mem: Memory)
    requires Sized(f) && i <= 16
    decreases 16 - i
  {
    i == 16 ||
    if i in regs then mem(sp) == f.core[i] && HoldsCore(regs, i + 1, Wrap32(sp + 4), f, mem)
    else HoldsCore(regs, i + 1, sp, f, mem)
  }

  predicate HoldsDoubles(i: nat, end: nat, sp: word32, f: File, mem: Memory)
    requires Sized(f) && i <= end <= 32
    decreases end - i
  {
    i == end || (DoubleAt(sp, mem) == f.doubles[i] && HoldsDoubles(i + 1, end, Wrap32(sp + 8), f, mem))
  }

  /** Memory from `sp` up holds what the save has stored. */
  predicate Holds(s: Save, sp: word32, f: File, mem: Memory)
    requires Sized(f) && Sensible(s)
  {
    match s
    case PushCore(mask) => HoldsCore(BitsOf(mask), 0, sp, f, mem)
    case PushDoubles(first, count, _) => HoldsDoubles(first, first + count, sp, f, mem)
    case PushPac => mem(sp) == f.pac
    case _ => true
  }

  /** SP after the saves. */
  function SpAfter(saves: seq<Save>, sp: word32): word32 {
    if saves == [] then sp else Wrap32(SpAfter(saves[..|saves| - 1], sp) - Room(saves[|saves| - 1]))
  }

  /** All are sensible, and no register is pushed after it has become a frame pointer. */
  predicate AllSensible(saves: seq<Save>) {
    && (forall k :: 0 <= k < |saves| ==> Sensible(saves[k]))
    && (forall j, k :: 0 <= j < k < |saves| && saves[j].SetFrame? && saves[k].PushCore? ==> saves[j].reg !in BitsOf(saves[k].mask))
  }

  /** Everything the prologue stored, starting with SP at `sp`, is still there. */
  predicate Kept(saves: seq<Save>, sp: word32, f: File, mem: Memory)
    requires Sized(f) && AllSensible(saves)
  {
    saves == [] ||
    (Holds(saves[|saves| - 1], SpAfter(saves, sp), f, mem) && Kept(saves[..|saves| - 1], sp, f, mem))
  }

  // ---------- Their unwinding code ----------

  /** The codes the ABI has for undoing a save. */
  predicate IsCode(s: Save, code: seq<byte>) {
    match s
    case PushCore(mask) =>
      || (0 < mask < 16 && code == [0xB1, mask])
      || (16 <= mask < 0x1_0000 && mask % 16 == 0 && code == [0x80 + mask / 4096, mask / 16 % 256])
      || (|code| == 1 && 0xA0 <= code[0] < 0xA8 && mask == RangeMask(code[0] % 8))
      || (|code| == 1 && 0xA8 <= code[0] < 0xB0 && mask == RangeMask(code[0] % 8) + 0x4000)
    case PushDoubles(first, count, extended) =>
      && 0 < count <= 16 && (extended || first + count <= 32)
      && (|| (first < 16 && code == [if extended then 0xB3 else 0xC9, first * 16 + count - 1])
          || (16 <= first < 32 && !extended && code == [0xC8, (first - 16) * 16 + count - 1])
          || (first == 8 && count <= 8 && code == [(if extended then 0xB8 else 0xD0) + count - 1]))
    case PushPac => code == [0xB4]
    case Lower(amount) =>
      && amount % 4 == 0
      && (|| (4 <= amount <= 0x100 && code == [(amount - 4) / 4])
          || (0x204 <= amount < TWO32 && code == [0xB2] + EncodeUnsigned((amount - 0x204) / 4)))
    case Raise(amount) => amount % 4 == 0 && 4 <= amount <= 0x100 && code == [0x40 + (amount - 4) / 4]
    case SetFrame(reg) => reg < 16 && reg != SP && reg != PC && code == [0x90 + reg]
  }

  function Undoing(s: Save): Instr {
    match s
    case PushCore(mask) => PopCore(mask)
    case PushDoubles(first, count, extended) => PopDoubles(first, count, extended)
    case PushPac => PopPac
    case Lower(amount) => AddSp(amount)
    case Raise(amount) => SubSp(amount)
    case SetFrame(reg) => SetSp(reg)
  }

  lemma ReadsUleb(bytes: seq<byte>, q: nat, len: nat, n: nat, v: nat)
    requires q + n <= len <= |bytes| && 0 < n <= 5 && Length(bytes, q, len) == n
    requires v < TWO32 && Unsigned(bytes[q..q + n]) == v
    ensures DecodeB(bytes, 0xB2, q, len) == Instruction(AddSp(0x204 + v * 4), q + n)
  {
  }

  lemma UlebDecodes(amount: nat, bytes: seq<byte>, q: nat, len: nat)
    requires 0x204 <= amount < TWO32 && amount % 4 == 0 && q <= len <= |bytes|
    requires var code := EncodeUnsigned((amount - 0x204) / 4); At(bytes, q, code) && q + |code| <= len
    ensures var code := EncodeUnsigned((amount - 0x204) / 4);
            DecodeB(bytes, 0xB2, q, len) == Instruction(AddSp(amount), q + |code|)
  {
    var v: nat := (amount - 0x204) / 4;
    var code := EncodeUnsigned(v);
    assert Pow128(5) == 0x8_0000_0000;
    EncodeUnsignedIsRight(v, 5);
    EncodingHasLength(bytes, q, len, code);
    AtIsSlice(bytes, q, code);
    ReadsUleb(bytes, q, len, |code|, v);
  }

  lemma ReadsMask(mask: nat, bytes: seq<byte>, offset: nat, len: nat)
    requires 16 <= mask < 0x1_0000 && mask % 16 == 0 && offset + 2 <= len <= |bytes|
    requires bytes[offset] == 0x80 + mask / 4096 && bytes[offset + 1] == mask / 16 % 256
    ensures Decode(bytes, offset, len) == Instruction(PopCore(mask), offset + 2)
  {
    MaskParts(mask);
  }

  lemma CoreCodeDecodes(mask: nat, code: seq<byte>, bytes: seq<byte>, offset: nat, len: nat)
    requires IsCode(PushCore(mask), code)
    requires At(bytes, offset, code) && offset + |code| <= len <= |bytes|
    ensures code != [] && Decode(bytes, offset, len) == Instruction(PopCore(mask), offset + |code|)
  {
    assert code[0] == bytes[offset + 0];
    if code[0] < 0xA0 {
      assert code[1] == bytes[offset + 1];
      ReadsMask(mask, bytes, offset, len);
    } else if code[0] >= 0xB0 {
      assert code[1] == bytes[offset + 1];
    }
  }

  lemma DoublesCodeDecodes(first: nat, count: nat, extended: bool, code: seq<byte>, bytes: seq<byte>, offset: nat, len: nat)
    requires IsCode(PushDoubles(first, count, extended), code)
    requires At(bytes, offset, code) && offset + |code| <= len <= |bytes|
    ensures code != [] && Decode(bytes, offset, len) == Instruction(PopDoubles(first, count, extended), offset + |code|)
  {
    assert code[0] == bytes[offset + 0];
    if |code| == 2 {
      assert code[1] == bytes[offset + 1];
      Nibbles(if first < 16 then first else first - 16, count - 1);
    }
  }

  lemma Nibbles(a: nat, b: nat)
    requires b < 16
    ensures (a * 16 + b) / 16 == a && (a * 16 + b) % 16 == b
  {
  }

  lemma SpCodeDecodes(s: Save, code: seq<byte>, bytes: seq<byte>, offset: nat, len: nat)
    requires (s.Lower? || s.Raise?) && IsCode(s, code)
    requires At(bytes, offset, code) && offset + |code| <= len <= |bytes|
    ensures code != [] && Decode(bytes, offset, len) == Instruction(Undoing(s), offset + |code|)
  {
    assert code[0] == bytes[offset + 0];
    if s.Lower? && s.amount >= 0x204 {
      var rest := EncodeUnsigned((s.amount - 0x204) / 4);
      forall i | 0 <= i < |rest| ensures rest[i] == bytes[offset + 1 + i] { assert code[i + 1] == bytes[offset + (i + 1)]; }
      UlebDecodes(s.amount, bytes, offset + 1, len);
    }
  }

  /** A code for a save decodes to the instruction that undoes it. */
  lemma CodeDecodes(s: Save, code: seq<byte>, bytes: seq<byte>, offset: nat, len: nat)
    requires IsCode(s, code) && At(bytes, offset, code) && offset + |code| <= len <= |bytes|
    ensures code != [] && Decode(bytes, offset, len) == Instruction(Undoing(s), offset + |code|)
  {
    match s
    case PushCore(mask) => CoreCodeDecodes(mask, code, bytes, offset, len);
    case PushDoubles(first, count, extended) => DoublesCodeDecodes(first, count, extended, code, bytes, offset, len);
    case PushPac => assert code[0] == bytes[offset + 0];
    case SetFrame(_) => assert code[0] == bytes[offset + 0];
    case _ => SpCodeDecodes(s, code, bytes, offset, len);
  }

  // ---------- The registers a code names ----------

  lemma {:induction false} HasBitIsBit(mask: nat, i: nat)
    ensures HasBit(mask, i) <==> BitAt(mask, i)
  {
    assert Pow2(0) == 1;
    if i > 0 {
      HasBitIsBit(mask / 2, i - 1);
      HigherBit(mask, i);
    }
  }

  /** The last argument of a code is the low bits of its registers: r0 to r3 in one byte; r4 to r15 in four bits and eight. */
  lemma MaskNames(high: nat, low: byte, r: nat)
    requires high < 16
    ensures r in BitsOf(low) <==> r < 16 && BitAt(low, r)
    ensures r in BitsOf(high * 4096 + low * 16) <==> (4 <= r < 12 && BitAt(low, r - 4)) || (12 <= r < 16 && BitAt(high, r - 12))
  {
    var mask := high * 4096 + low * 16;
    HasBitIsBit(low, r);
    HasBitIsBit(mask, r);
    assert Pow2(4) == 16 && Pow2(8) == 256 by { assert Pow2(6) == 64; }
    assert mask == (high * Pow2(8) + low) * Pow2(4) + 0;
    BitOfPair(high * Pow2(8) + low, 0, 4, r);
    NoBits(r);
    if r >= 4 { BitOfPair(high, low, 8, r - 4); }
  }

  lemma NoBits(r: nat)
    ensures !BitAt(0, r)
  {
    HasBitIsBit(0, r);
    ZeroHasNone(r);
  }

  lemma {:induction false} ZeroHasNone(r: nat)
    ensures !HasBit(0, r)
  {
    if r > 0 { ZeroHasNone(r - 1); }
  }

  /** The lowest bits, `n` and one more. */
  lemma {:induction false} LowBits(n: nat, i: nat)
    ensures BitAt(Pow2(n + 1) - 1, i) <==> i <= n
  {
    assert Pow2(0) == 1 && Pow2(1) == 2;
    if i > 0 {
      HigherBit(Pow2(n + 1) - 1, i);
      if n > 0 { LowBits(n - 1, i - 1); } else { NoBits(i - 1); }
    }
  }

  lemma {:induction false} RunMask(n: nat)
    ensures RangeMask(n) == 16 * (Pow2(n + 1) - 1)
  {
    assert Pow2(1) == 2;
    if n > 0 { RunMask(n - 1); }
  }

  lemma {:induction false} PowersGrow(a: nat, b: nat)
    requires a <= b
    ensures Pow2(a) <= Pow2(b)
  {
    if a < b { PowersGrow(a, b - 1); }
  }

  /** The mask of a run is that of its registers: r4 up to r4 + n, and r14 if it is added. */
  lemma RunNames(n: nat, r: nat)
    requires n < 8
    ensures r in BitsOf(RangeMask(n)) <==> 4 <= r <= 4 + n
    ensures r in BitsOf(RangeMask(n) + 0x4000) <==> 4 <= r <= 4 + n || r == LR
  {
    RunMask(n);
    PowersGrow(n + 1, 8);
    assert Pow2(8) == 256 by { assert Pow2(4) == 16; }
    MaskNames(0, Pow2(n + 1) - 1, r);
    MaskNames(4, Pow2(n + 1) - 1, r);
    if r >= 4 { LowBits(n, r - 4); }
    if r >= 12 {
      NoBits(r - 12);
      FourHasOne(r - 12);
    }
  }

  lemma FourHasOne(i: nat)
    ensures BitAt(4, i) <==> i == 2
  {
    HasBitIsBit(4, i);
    if i > 2 {
      ZeroHasNone(i - 3);
      assert HasBit(4, i) == HasBit(2, i - 1) == HasBit(1, i - 2);
    }
  }

  /** The save undone by an instruction, if there is one. */
  function UndoneBy(i: Instr): Save {
    match i
    case AddSp(amount) => Lower(amount)
    case SubSp(amount) => Raise(amount)
    case PopCore(mask) => PushCore(mask)
    case SetSp(reg) => SetFrame(reg)
    case PopDoubles(first, count, extended) => PushDoubles(first, count, extended)
    case _ => PushPac
  }

  /** The bytes from `offset` to where the instruction ends are a code for the save it undoes. */
  predicate FromCode(d: Decoding, bytes: seq<byte>, offset: nat) {
    d.Instruction? ==>
      offset <= d.next <= |bytes| && IsCode(UndoneBy(d.instr), bytes[offset..d.next]) && Undoing(UndoneBy(d.instr)) == d.instr
  }

  lemma OneOrTwo(bytes: seq<byte>, offset: nat)
    requires offset < |bytes|
    ensures bytes[offset..offset + 1] == [bytes[offset]]
    ensures offset + 1 < |bytes| ==> bytes[offset..offset + 2] == [bytes[offset], bytes[offset + 1]]
  {
  }

  lemma OnlyCoreCodes(bytes: seq<byte>, offset: nat, len: nat)
    requires offset < len <= |bytes| && 0x80 <= bytes[offset] < 0xB0
    ensures FromCode(DecodeCore(bytes, bytes[offset], offset + 1, len), bytes, offset)
  {
    OneOrTwo(bytes, offset);
    if bytes[offset] < 0x90 && offset + 1 < len { MaskOfParts(bytes[offset] % 16, bytes[offset + 1]); }
  }

  lemma OnlyBCodes(bytes: seq<byte>, offset: nat, len: nat)
    requires offset < len <= |bytes| && 0xB0 < bytes[offset] < 0xC0 && bytes[offset] != 0xB2
    ensures FromCode(DecodeB(bytes, bytes[offset], offset + 1, len), bytes, offset)
  {
    OneOrTwo(bytes, offset);
  }

  lemma OnlyVfpCodes(bytes: seq<byte>, offset: nat)
    requires offset < |bytes| && 0xC0 <= bytes[offset]
    ensures FromCode(DecodeVfp(bytes, bytes[offset], offset + 1), bytes, offset)
  {
    OneOrTwo(bytes, offset);
  }

  /**
   And nothing else decodes: what does is a save's code, or says that the code
   ends. Numbers of variable length are left out; they have longer forms too.
   */
  lemma OnlyCodesDecode(bytes: seq<byte>, offset: nat, len: nat)
    requires offset < len <= |bytes| && bytes[offset] != 0xB2
    ensures var d := Decode(bytes, offset, len);
            if bytes[offset] == 0xB0 then d == Instruction(Finish, offset + 1) else FromCode(d, bytes, offset)
  {
    var b := bytes[offset];
    if 0x80 <= b < 0xB0 {
      OnlyCoreCodes(bytes, offset, len);
    } else if 0xB0 < b < 0xC0 {
      OnlyBCodes(bytes, offset, len);
    } else if b >= 0xC0 {
      OnlyVfpCodes(bytes, offset);
    } else if b < 0x80 {
      OneOrTwo(bytes, offset);
    }
  }

  lemma MaskOfParts(high: nat, low: nat)
    requires high < 16 && low < 256
    ensures var mask := high * 4096 + low * 16; mask < 0x1_0000 && mask % 16 == 0 && mask / 4096 == high && mask / 16 % 256 == low
  {
  }

  lemma MaskParts(mask: nat)
    requires 16 <= mask < 0x1_0000 && mask % 16 == 0
    ensures mask / 4096 < 16 && mask / 16 % 256 < 256
    ensures mask / 4096 * 4096 + mask / 16 % 256 * 16 == mask
  {
  }
}
