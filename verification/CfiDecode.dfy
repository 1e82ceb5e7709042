/**
 The call frame instructions of DWARF (section 6.4.2 of DWARF 3) as bytes and
 as instructions. Addresses index `mem`; reading outside it stops the program.
 */
module CfiDecode {
  import opened AddressSpace
  import opened Leb128
  import opened Words

  datatype Place = Unused | Undefined | InCfa | OffsetFromCfa | InRegister | AtExpression | IsExpression

  /** `Malformed` makes the parser give up, `Stop` ends the program. */
  datatype Instr =
    | Nop
    | SetLoc(address: nat)
    | Advance(delta: nat)
    | SetRule(reg: nat, place: Place, value: int)
    | SetPlace(reg: nat, place: Place)
    | Restore(reg: nat)
    | Remember
    | Recall
    | DefCfa(reg: nat, offset: int)
    | DefCfaRegister(reg: nat)
    | DefCfaOffset(offset: int)
    | DefCfaExpression(at: int)
    | ArgsSize(size: nat)
    | Malformed
    | Stop

  /** A decoder of encoded pointers; none moves backwards. */
  type PointerReader = f: nat -> Decoded<nat> | forall p :: f(p).Value? ==> f(p).next >= p witness p => Abort

  /** What the instructions depend on: alignment factors, the highest register, and how pointers are encoded. */
  datatype Cie = Cie(codeAlign: nat, dataAlign: int, maxRegister: nat, pointer: PointerReader)

  function ToInt32(x: int): (r: int)
    ensures -TWO32 / 2 <= r < TWO32 / 2
    ensures -TWO32 / 2 <= x < TWO32 / 2 ==> r == x
  {
    (x + TWO32 / 2) % TWO32 - TWO32 / 2
  }

  /** The advance of a location, in 32-bit arithmetic. */
  function Scaled(c: Cie, operand: nat): (r: nat)
    ensures r < TWO32
  {
    (operand * c.codeAlign) % TWO32
  }

  /** The end of a block that starts with its length; one that wraps around the address space counts as stopping. */
  function Block(mem: seq<byte>, p: nat, end: nat): (r: Decoded<nat>)
    requires p <= end <= |mem|
    ensures r.Value? ==> r.next > p
  {
    var length :- DecodeUnsigned(mem, p, end);
    if length.next + length.value < TWO64 then Value(length.value, length.next + length.value) else Abort
  }

  /** Registers below `n`, and no advance of 2^32 or more. */
  predicate InRange(i: Instr, n: nat) {
    && ((i.SetRule? || i.SetPlace? || i.Restore?) ==> i.reg < n)
    && (i.Advance? ==> i.delta < TWO32)
  }

  /** The instruction at `p`, and the address after it. */
  function Decode(c: Cie, mem: seq<byte>, p: nat, end: nat): (r: Decoded<Instr>)
    requires p < end <= |mem|
    ensures r.Value? ==> r.next > p && InRange(r.value, c.maxRegister + 1)
  {
    var op, q := mem[p], p + 1;
    if op >= 0x40 || op in {0x02, 0x03, 0x04} then Primary(c, mem, op, q, end)
    else if op in {0x05, 0x11, 0x14, 0x15, 0x2F} then SavedAtOffset(c, mem, op, q, end)
    else if op in {0x06, 0x07, 0x08, 0x09, 0x10, 0x16} then SavedElsewhere(c, mem, op, q, end)
    else if op in {0x0C, 0x0D, 0x0E, 0x0F, 0x12, 0x13, 0x2E} then Frame(c, mem, op, q, end)
    else Other(c, op, q)
  }

  function Other(c: Cie, op: byte, q: nat): (r: Decoded<Instr>)
    ensures r.Value? ==> r.next >= q && InRange(r.value, c.maxRegister + 1)
  {
    if op == 0x00 then Value(Nop, q)
    else if op == 0x01 then var a :- c.pointer(q); Value(SetLoc(a.value), a.next)
    else if op == 0x0A then Value(Remember, q)
    else if op == 0x0B then Value(Recall, q)
    else Value(Malformed, q)
  }

  /** Instructions with an operand in the opcode, and advances. */
  function Primary(c: Cie, mem: seq<byte>, op: byte, q: nat, end: nat): (r: Decoded<Instr>)
    requires q <= end <= |mem|
    requires op >= 0x40 || op in {0x02, 0x03, 0x04}
    ensures r.Value? ==> r.next >= q && InRange(r.value, c.maxRegister + 1)
  {
    var operand := op % 0x40;
    if op < 0x40 then
      var delta :- Fixed(mem, q, if op == 0x02 then 1 else if op == 0x03 then 2 else 4);
      Value(Advance(Scaled(c, delta.value)), delta.next)
    else if op < 0x80 then Value(Advance(Scaled(c, operand)), q)
    else if operand > c.maxRegister then Value(Malformed, q)
    else if op < 0xC0 then
      var offset :- DecodeUnsigned(mem, q, end);
      Value(SetRule(operand, InCfa, ToInt64(offset.value * c.dataAlign)), offset.next)
    else Value(Restore(operand), q)
  }

  /** Rules that give an offset from the frame's address. Only the first reads its offset before it checks its register. */
  function SavedAtOffset(c: Cie, mem: seq<byte>, op: byte, q: nat, end: nat): (r: Decoded<Instr>)
    requires q <= end <= |mem|
    requires op in {0x05, 0x11, 0x14, 0x15, 0x2F}
    ensures r.Value? ==> r.next >= q && InRange(r.value, c.maxRegister + 1)
  {
    var reg :- DecodeUnsigned(mem, q, end);
    if op != 0x05 && reg.value > c.maxRegister then Value(Malformed, reg.next)
    else if op in {0x11, 0x15} then
      var offset :- DecodeSigned(mem, reg.next, end);
      Value(SetRule(reg.value, if op == 0x11 then InCfa else OffsetFromCfa, ToInt64(offset.value * c.dataAlign)), offset.next)
    else
      var offset :- DecodeUnsigned(mem, reg.next, end);
      var scaled := ToInt64(offset.value * c.dataAlign);
      if reg.value > c.maxRegister then Value(Malformed, offset.next)
      else if op == 0x2F then Value(SetRule(reg.value, InCfa, ToInt64(-scaled)), offset.next)
      else Value(SetRule(reg.value, if op == 0x05 then InCfa else OffsetFromCfa, scaled), offset.next)
  }

  function SavedElsewhere(c: Cie, mem: seq<byte>, op: byte, q: nat, end: nat): (r: Decoded<Instr>)
    requires q <= end <= |mem|
    requires op in {0x06, 0x07, 0x08, 0x09, 0x10, 0x16}
    ensures r.Value? ==> r.next >= q && InRange(r.value, c.maxRegister + 1)
  {
    var reg :- DecodeUnsigned(mem, q, end);
    if op == 0x09 then
      var reg2 :- DecodeUnsigned(mem, reg.next, end);
      if reg.value > c.maxRegister || reg2.value > c.maxRegister then Value(Malformed, reg2.next)
      else Value(SetRule(reg.value, InRegister, ToInt64(reg2.value)), reg2.next)
    else if reg.value > c.maxRegister then Value(Malformed, reg.next)
    else if op == 0x06 then Value(Restore(reg.value), reg.next)
    else if op == 0x07 then Value(SetPlace(reg.value, Undefined), reg.next)
    else if op == 0x08 then Value(SetPlace(reg.value, Unused), reg.next)
    else
      var block :- Block(mem, reg.next, end);
      Value(SetRule(reg.value, if op == 0x10 then AtExpression else IsExpression, ToInt64(reg.next)), block.next)
  }

  predicate AboutFrame(i: Instr) {
    i.DefCfa? || i.DefCfaRegister? || i.DefCfaOffset? || i.DefCfaExpression? || i.ArgsSize?
  }

  /** Rules for the frame's address, and the size of the arguments. */
  function Frame(c: Cie, mem: seq<byte>, op: byte, q: nat, end: nat): (r: Decoded<Instr>)
    requires q <= end <= |mem|
    requires op in {0x0C, 0x0D, 0x0E, 0x0F, 0x12, 0x13, 0x2E}
    ensures r.Value? ==> r.value.Malformed? || AboutFrame(r.value)
    ensures r.Value? ==> r.next >= q && InRange(r.value, c.maxRegister + 1)
  {
    if op == 0x13 then
      var offset :- DecodeSigned(mem, q, end);
      Value(DefCfaOffset(ToInt32(ToInt64(offset.value * c.dataAlign))), offset.next)
    else if op == 0x0F then
      var block :- Block(mem, q, end);
      Value(DefCfaExpression(ToInt64(q)), block.next)
    else
      var first :- DecodeUnsigned(mem, q, end);
      if op == 0x0E then Value(DefCfaOffset(ToInt32(first.value)), first.next)
      else if op == 0x2E then Value(ArgsSize(first.value % TWO32), first.next)
      else if op == 0x0D then
        if first.value > c.maxRegister then Value(Malformed, first.next)
        else Value(DefCfaRegister(first.value), first.next)
      else if op == 0x0C then
        var offset :- DecodeUnsigned(mem, first.next, end);
        if first.value > c.maxRegister then Value(Malformed, offset.next)
        else Value(DefCfa(first.value, ToInt32(ToInt64(offset.value))), offset.next)
      else
        var offset :- DecodeSigned(mem, first.next, end);
        if first.value > c.maxRegister then Value(Malformed, offset.next)
        else Value(DefCfa(first.value, ToInt32(ToInt64(offset.value * c.dataAlign))), offset.next)
  }

  /** The instructions from `p` to `end`; the first that is malformed or stops the program is the last. */
  function Program(c: Cie, mem: seq<byte>, p: nat, end: nat): (prog: seq<Instr>)
    requires end <= |mem|
    decreases end - p, 1
  {
    if p >= end then [] else Onward(Decode(c, mem, p, end), c, mem, p, end)
  }

  /** An instruction and those after it. */
  function Onward(d: Decoded<Instr>, c: Cie, mem: seq<byte>, p: nat, end: nat): (prog: seq<Instr>)
    requires p < end <= |mem| && (d.Value? ==> d.next > p)
    decreases end - p, 0
  {
    match d
    case Abort => [Stop]
    case Value(Malformed, _) => [Malformed]
    case Value(i, q) => [i] + Program(c, mem, q, end)
  }

  lemma ProgramStep(c: Cie, mem: seq<byte>, p: nat, end: nat, i: Instr, q: nat)
    requires p < end <= |mem| && Decode(c, mem, p, end) == Value(i, q) && !i.Malformed?
    ensures Program(c, mem, p, end) == [i] + Program(c, mem, q, end)
  {
  }
}
