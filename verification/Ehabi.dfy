/**
 The interpreter of ARM unwinding instructions, working in place on the
 virtual registers.
 */
module Ehabi {
  import opened AddressSpace
  import opened EhabiOpcodes
  import opened Leb128
  import opened Words

  /** Unwinding instructions are taken word by word, inside a word from the most significant byte down. */
  function GetByte(data: seq<byte>, offset: nat): byte
    requires |data| % 4 == 0 && offset < |data|
  {
    data[offset - offset % 4 + (3 - offset % 4)]
  }

  function BytesOf(data: seq<byte>): (bytes: seq<byte>)
    requires |data| % 4 == 0
    ensures |bytes| == |data| && forall k :: 0 <= k < |data| ==> bytes[k] == GetByte(data, k)
  {
    seq(|data|, k requires 0 <= k < |data| => GetByte(data, k))
  }

  /** So the four bytes of a word in memory are those of its value, most significant first. */
  lemma WordIsBigEndian(data: seq<byte>, w: nat)
    requires |data| % 4 == 0 && 4 * w + 4 <= |data|
    ensures var b := BytesOf(data);
            LittleEndian(data, 4 * w, 4) == ((b[4 * w] as int * 256 + b[4 * w + 1]) * 256 + b[4 * w + 2]) * 256 + b[4 * w + 3]
  {
    var b, p := BytesOf(data), 4 * w;
    assert b[p] == data[p + 3] && b[p + 1] == data[p + 2] && b[p + 2] == data[p + 1] && b[p + 3] == data[p];
    assert LittleEndian(data, p + 4, 0) == 0;
    assert LittleEndian(data, p + 3, 1) == data[p + 3];
    assert LittleEndian(data, p + 2, 2) == data[p + 2] + 256 * data[p + 3] as int;
  }

  /** The offset of an instruction as a number of variable length, in 32-bit arithmetic; shifts of 32 or more have no meaning. */
  method GetAddend(bytes: seq<byte>, start: nat, len: nat) returns (status: Status, addend: word32, next: nat)
    requires start <= len <= |bytes|
    ensures var n := Length(bytes, start, len);
            if n == 0 && len - start <= 5 then status == FailureStatus
            else if n == 0 || n > 5 then status == FaultStatus
            else status == Going && next == start + n && addend == Unsigned(bytes[start..start + n]) % TWO32
  {
    var shift, weight: nat := 0, 1;
    next := start;
    addend := 0;
    while true
      invariant start <= next <= len && shift == 7 * (next - start) && next - start <= 5 && weight == Pow128(next - start)
      invariant addend == Unsigned(bytes[start..next]) % TWO32
      invariant forall i :: start <= i < next ==> bytes[i] >= 128
      decreases len - next
    {
      if next >= len { return FailureStatus, addend, next; }
      if shift >= 32 { return FaultStatus, addend, next; }
      var v: nat := bytes[next];
      NextByte(bytes, start, next);
      WrapAdd(Unsigned(bytes[start..next]), (v % 128) * weight);
      addend := Add32(addend, (v % 128) * weight);
      next := next + 1;
      shift := shift + 7;
      weight := 128 * weight;
      if v < 128 {
        LengthIs(bytes, start, len, next - start);
        return Going, addend, next;
      }
    }
  }

  datatype Status = Going | FailureStatus | FaultStatus

  class VirtualRegisters {
    const core: array<word32>
    const doubles: array<word64>
    var pac: word32

    ghost predicate Valid()
      reads this
    {
      core.Length == 16 && doubles.Length == 32
    }

    ghost function View(): (f: File)
      requires Valid()
      reads this, core, doubles
      ensures Sized(f)
    {
      File(core[..], doubles[..], pac)
    }

    constructor (f: File)
      requires Sized(f)
      ensures Valid() && fresh(core) && fresh(doubles) && View() == f
    {
      core := new word32[16](i requires 0 <= i < 16 => f.core[i]);
      doubles := new word64[32](i requires 0 <= i < 32 => f.doubles[i]);
      pac := f.pac;
      new;
      assert core[..] == f.core && doubles[..] == f.doubles;
    }

    /** Pops core registers in ascending order; a popped SP stays. */
    method PopCoreRegisters(mask: nat, mem: Memory)
      requires Valid()
      modifies core
      ensures View() == Exec(PopCore(mask), old(View()), mem)
    {
      var poppedSp, sp, i := false, core[SP], 0;
      while i < 16
        invariant 0 <= i <= 16 && poppedSp == (i > SP && SP in BitsOf(mask))
        invariant PopWords(BitsOf(mask), i, sp, View(), mem) == Exec(PopCore(mask), old(View()), mem)
      {
        if HasBit(mask, i) {
          core[i] := mem(sp);
          sp := Add32(sp, 4);
          if i == SP { poppedSp := true; }
        }
        i := i + 1;
      }
      if !poppedSp { core[SP] := sp; }
    }

    /** Pops doubles; a register out of range ends it, and SP stays. */
    method PopDoubleRegisters(first: nat, count: nat, extended: bool, mem: Memory)
      requires Valid()
      modifies core, doubles
      ensures View() == Exec(PopDoubles(first, count, extended), old(View()), mem)
    {
      var sp, i := core[SP], first;
      while i < first + count
        invariant first <= i <= first + count && core[..] == old(core[..]) && pac == old(pac)
        invariant PopPairs(i, first + count, extended, sp, View(), mem) == Exec(PopDoubles(first, count, extended), old(View()), mem)
      {
        var low := mem(sp);
        WrapAdd(sp as int + 4, 4);
        sp := Add32(sp, 4);
        var high := mem(sp);
        sp := Add32(sp, 4);
        if i > (if extended then 15 else 31) { return; }
        doubles[i] := high * TWO32 + low;
        i := i + 1;
      }
      if extended { sp := Add32(sp, 4); }
      core[SP] := sp;
    }

    method PopAuthCode(mem: Memory)
      requires Valid()
      modifies this`pac, core
      ensures View() == Exec(PopPac, old(View()), mem)
    {
      var sp := core[SP];
      var code := mem(sp);
      core[SP] := Add32(sp, 4);
      pac := code;
    }

    method SetStackPointer(sp: word32)
      requires Valid()
      modifies core
      ensures View() == WithSp(old(View()), sp)
    {
      core[SP] := sp;
    }

    /** One instruction; says where the next is, whether it was the last, and whether it wrote PC. */
    method InterpretOne(bytes: seq<byte>, offset: nat, len: nat, mem: Memory)
      returns (status: Status, next: nat, finish: bool, wrotePc: bool)
      requires Valid() && offset < len <= |bytes|
      modifies this`pac, core, doubles
      ensures match Decode(bytes, offset, len)
              case Refused => status == FailureStatus
              case Beyond => status == FaultStatus
              case Instruction(i, q) =>
                status == Going && next == q && finish == i.Finish? && wrotePc == PopsPc(i) && View() == Exec(i, old(View()), mem)
    {
      var b: nat := bytes[offset];
      status, next, finish, wrotePc := Going, offset + 1, false, false;
      if b < 0x80 {
        var sp: int := core[SP];
        SetStackPointer(if b / 0x40 == 1 then Wrap32(sp - (b % 0x40 * 4 + 4)) else Wrap32(sp + (b * 4 + 4)));
      } else if b < 0xB0 {
        status, next, wrotePc := InterpretCore(bytes, b, next, len, mem);
      } else if b < 0xC0 {
        status, next, finish := InterpretB(bytes, b, next, len, mem);
      } else {
        status, next := InterpretVfp(bytes, b, next, mem);
      }
    }

    method InterpretCore(bytes: seq<byte>, b: nat, q: nat, len: nat, mem: Memory) returns (status: Status, next: nat, wrotePc: bool)
      requires Valid() && 0x80 <= b < 0xB0 && q <= len <= |bytes|
      modifies core
      ensures match DecodeCore(bytes, b, q, len)
              case Refused => status == FailureStatus
              case Beyond => status == FaultStatus
              case Instruction(i, p) =>
                status == Going && next == p && !i.Finish? && wrotePc == PopsPc(i) && View() == Exec(i, old(View()), mem)
    {
      status, next, wrotePc := Going, q, false;
      if b < 0x90 {
        if next >= len { return FailureStatus, next, false; }
        var low: nat := bytes[next];
        next := next + 1;
        var registers := b % 16 * 4096 + low * 16;
        if registers == 0 { return FailureStatus, next, false; }
        wrotePc := HasBit(registers, PC);
        PopCoreRegisters(registers, mem);
      } else if b < 0xA0 {
        var reg := b % 16;
        if reg == SP || reg == PC { return FailureStatus, next, false; }
        SetStackPointer(core[reg]);
      } else {
        var registers := RangeMask(b % 8);
        if b >= 0xA8 { registers := registers + 0x4000; }
        RangeMaskBound(b % 8);
        NotThePc(registers);
        PopCoreRegisters(registers, mem);
      }
    }

    method InterpretVfp(bytes: seq<byte>, b: nat, q: nat, mem: Memory) returns (status: Status, next: nat)
      requires Valid() && 0xC0 <= b < 0x100 && q <= |bytes|
      modifies core, doubles
      ensures match DecodeVfp(bytes, b, q)
              case Refused => status == FailureStatus
              case Beyond => status == FaultStatus
              case Instruction(i, p) =>
                status == Going && next == p && !i.Finish? && !PopsPc(i) && View() == Exec(i, old(View()), mem)
    {
      status, next := Going, q;
      if b == 0xC8 || b == 0xC9 {
        if next >= |bytes| { return FaultStatus, next; }
        var first := (if b == 0xC8 then 16 else 0) + bytes[next] / 16;
        var countMinusOne := bytes[next] % 16;
        next := next + 1;
        if first + countMinusOne >= 32 { return FailureStatus, next; }
        PopDoubleRegisters(first, countMinusOne + 1, false, mem);
      } else if 0xD0 <= b < 0xD8 {
        PopDoubleRegisters(8, b % 8 + 1, false, mem);
      } else {
        status := FailureStatus;
      }
    }

    method InterpretB(bytes: seq<byte>, b: nat, q: nat, len: nat, mem: Memory) returns (status: Status, next: nat, finish: bool)
      requires Valid() && 0xB0 <= b < 0xC0 && q <= len <= |bytes|
      modifies this`pac, core, doubles
      ensures match DecodeB(bytes, b, q, len)
              case Refused => status == FailureStatus
              case Beyond => status == FaultStatus
              case Instruction(i, p) =>
                status == Going && next == p && finish == i.Finish? && !PopsPc(i) && View() == Exec(i, old(View()), mem)
    {
      status, next, finish := Going, q, false;
      if b == 0xB0 {
        finish := true;
      } else if b == 0xB1 {
        if next >= len { return FailureStatus, next, false; }
        var registers := bytes[next];
        next := next + 1;
        if registers >= 16 || registers == 0 { return FailureStatus, next, false; }
        NotThePc(registers);
        PopCoreRegisters(registers, mem);
      } else if b == 0xB2 {
        var addend;
        status, addend, next := GetAddend(bytes, q, len);
        if status == Going { SetStackPointer(Add32(core[SP], 0x204 + addend as int * 4)); }
      } else if b == 0xB3 {
        if next >= |bytes| { return FaultStatus, next, false; }
        var v := bytes[next];
        next := next + 1;
        PopDoubleRegisters(v / 16, v % 16 + 1, true, mem);
      } else if b == 0xB4 {
        PopAuthCode(mem);
      } else if b < 0xB8 {
        status := FailureStatus;
      } else {
        PopDoubleRegisters(8, b % 8 + 1, true, mem);
      }
    }

    method InterpretAll(data: seq<byte>, start: nat, len: nat, mem: Memory) returns (o: Status)
      requires Valid() && |data| % 4 == 0 && len <= |data|
      modifies this`pac, core, doubles
      ensures match Interpret(BytesOf(data), start, len, old(View()), mem, false)
              case Continue(f) => o == Going && View() == f
              case Failure => o == FailureStatus
              case Fault => o == FaultStatus
    {
      var wrotePc, finish, offset := false, false, start;
      var bytes := BytesOf(data);
      ghost var whole := Interpret(bytes, start, len, View(), mem, false);
      while offset < len && !finish
        invariant whole == if finish then Finished(View(), wrotePc) else Interpret(bytes, offset, len, View(), mem, wrotePc)
        decreases len - offset, !finish
      {
        ghost var before := offset;
        var status, wrote;
        status, offset, finish, wrote := InterpretOne(bytes, offset, len, mem);
        if status != Going { return status; }
        wrotePc := wrotePc || wrote;
      }
      if !wrotePc { core[PC] := core[LR]; }
      o := Going;
    }
  }

  lemma RangeMaskBound(n: nat)
    requires n < 8
    ensures RangeMask(n) < 0x1000
  {
    assert RangeMask(3) == 0xF0 && RangeMask(4) == 0x1F0 && RangeMask(5) == 0x3F0 && RangeMask(6) == 0x7F0;
  }

  /** A mask below 2^15 does not pop PC. */
  lemma NotThePc(mask: nat)
    requires mask < 0x8000
    ensures PC !in BitsOf(mask)
  {
    assert Pow2(5) == 32 && Pow2(10) == 1024 && Pow2(15) == 0x8000;
    NoBit(mask, 15);
  }

  lemma {:induction false} NoBit(mask: nat, i: nat)
    requires mask < Pow2(i)
    ensures !HasBit(mask, i)
  {
    if i > 0 { NoBit(mask / 2, i - 1); }
  }
}
