/**
 The interpreter of call frame instructions, working in place on the frame's
 description, on the captured rules of one stream, and on the stack of
 remembered descriptions that the CIE's and the FDE's stream share.
 */
module CfiParser {
  import opened AddressSpace
  import opened Leb128
  import opened CfiDecode
  import opened CfiRules
  import opened Words

  class PrologInfo {
    var cfaRegister: nat
    var cfaRegisterOffset: int
    var cfaExpression: int
    var spExtraArgSize: nat
    const savedRegisters: array<Rule>

    /** Everything zero. */
    constructor (n: nat)
      ensures fresh(savedRegisters) && savedRegisters.Length == n
      ensures View() == Row(0, 0, 0, 0, seq(n, _ => Rule(Unused, false, 0)))
    {
      cfaRegister, cfaRegisterOffset, cfaExpression, spExtraArgSize := 0, 0, 0, 0;
      savedRegisters := new Rule[n](_ => Rule(Unused, false, 0));
      new;
      assert savedRegisters[..] == seq(n, _ => Rule(Unused, false, 0));
    }

    ghost function View(): Row
      reads this, savedRegisters
    {
      Row(cfaRegister, cfaRegisterOffset, cfaExpression, spExtraArgSize, savedRegisters[..])
    }

    /** The description and the captured rules, in the middle of a stream. */
    ghost function At(initial: array<Rule>, stack: seq<Row>, offset: nat): (s: State)
      reads this, savedRegisters, initial
    {
      State(View(), initial[..], stack, offset)
    }

    method CheckSaveRegister(reg: nat, initial: array<Rule>, ghost stack: seq<Row>, ghost offset: nat)
      requires reg < savedRegisters.Length == initial.Length && initial != savedRegisters
      modifies savedRegisters, initial
      ensures At(initial, stack, offset) == Capture(old(At(initial, stack, offset)), reg)
    {
      if !savedRegisters[reg].saved {
        initial[reg] := savedRegisters[reg];
        savedRegisters[reg] := savedRegisters[reg].(saved := true);
      }
    }

    method SetRegister(reg: nat, place: Place, value: int, initial: array<Rule>, ghost stack: seq<Row>, ghost offset: nat)
      requires reg < savedRegisters.Length == initial.Length && initial != savedRegisters
      requires StackSized(stack, initial.Length)
      modifies savedRegisters, initial
      ensures Done(At(initial, stack, offset)) == Exec(SetRule(reg, place, value), old(At(initial, stack, offset)), initial.Length)
    {
      CheckSaveRegister(reg, initial, stack, offset);
      savedRegisters[reg] := savedRegisters[reg].(place := place);
      savedRegisters[reg] := savedRegisters[reg].(value := value);
      assert savedRegisters[reg] == Rule(place, true, value);
    }

    method SetRegisterLocation(reg: nat, place: Place, initial: array<Rule>, ghost stack: seq<Row>, ghost offset: nat)
      requires reg < savedRegisters.Length == initial.Length && initial != savedRegisters
      requires StackSized(stack, initial.Length)
      modifies savedRegisters, initial
      ensures Done(At(initial, stack, offset)) == Exec(SetPlace(reg, place), old(At(initial, stack, offset)), initial.Length)
    {
      CheckSaveRegister(reg, initial, stack, offset);
      savedRegisters[reg] := savedRegisters[reg].(place := place);
    }

    method RestoreRegisterToInitialState(reg: nat, initial: array<Rule>, ghost stack: seq<Row>, ghost offset: nat)
      requires reg < savedRegisters.Length == initial.Length && initial != savedRegisters
      requires StackSized(stack, initial.Length)
      modifies savedRegisters
      ensures Done(At(initial, stack, offset)) == Exec(Instr.Restore(reg), old(At(initial, stack, offset)), initial.Length)
    {
      if savedRegisters[reg].saved {
        savedRegisters[reg] := initial[reg];
      }
    }

    /** Assigns a remembered description. */
    method Assign(row: Row)
      requires |row.rules| == savedRegisters.Length
      modifies this, savedRegisters
      ensures View() == row
    {
      cfaRegister, cfaRegisterOffset := row.cfaRegister, row.cfaOffset;
      cfaExpression, spExtraArgSize := row.cfaExpression, row.argsSize;
      forall k | 0 <= k < savedRegisters.Length { savedRegisters[k] := row.rules[k]; }
      assert savedRegisters[..] == row.rules;
    }

    method Copy() returns (row: Row)
      ensures row == View()
    {
      row := Row(cfaRegister, cfaRegisterOffset, cfaExpression, spExtraArgSize, savedRegisters[..]);
    }
  }

  /** How an instruction ends: the parser goes on, gives up, or the program stops. */
  datatype Progress = Going | GaveUp | Aborted

  /** An instruction of `d`, started in `s`, ends in `t` with `q` as next address. */
  ghost predicate Executes(d: Decoded<Instr>, s: State, n: nat, r: Progress, q: nat, t: State)
    requires Sized(s, n) && (d.Value? ==> InRange(d.value, n))
  {
    match d
    case Abort => r == Aborted
    case Value(i, next) =>
      match Exec(i, s, n)
      case Done(u) => r == Going && q == next && t == u
      case Failed => r == GaveUp
      case Stopped => false
  }

  /** What every instruction can rely on. */
  ghost predicate Ready(c: Cie, results: PrologInfo, initial: array<Rule>, stack: seq<Row>) {
    && results.savedRegisters.Length == initial.Length == c.maxRegister + 1
    && initial != results.savedRegisters && StackSized(stack, initial.Length)
  }

  method RunPrimary(c: Cie, mem: seq<byte>, op: byte, p: nat, end: nat, codeOffset: nat,
                    results: PrologInfo, initial: array<Rule>, ghost stack: seq<Row>)
    returns (r: Progress, q: nat, offset: nat)
    requires p <= end <= |mem| && (op >= 0x40 || op in {0x02, 0x03, 0x04})
    requires Ready(c, results, initial, stack)
    modifies results, results.savedRegisters, initial
    ensures Executes(Primary(c, mem, op, p, end), old(results.At(initial, stack, codeOffset)), initial.Length,
                     r, q, results.At(initial, stack, offset))
  {
    r, q, offset := Going, p, codeOffset;
    var operand := op % 0x40;
    if op < 0x40 {
      var delta := Fixed(mem, p, if op == 0x02 then 1 else if op == 0x03 then 2 else 4);
      if delta.Abort? { return Aborted, q, offset; }
      offset := (codeOffset + Scaled(c, delta.value)) % TWO64;
      q := delta.next;
    } else if op < 0x80 {
      offset := (codeOffset + Scaled(c, operand)) % TWO64;
    } else if operand > c.maxRegister {
      r := GaveUp;
    } else if op < 0xC0 {
      var number := GetUnsigned(mem, p, end);
      if number.Abort? { return Aborted, q, offset; }
      results.SetRegister(operand, InCfa, ToInt64(number.value * c.dataAlign), initial, stack, offset);
      q := number.next;
    } else {
      results.RestoreRegisterToInitialState(operand, initial, stack, offset);
    }
  }

  method RunSavedAtOffset(c: Cie, mem: seq<byte>, op: byte, p: nat, end: nat, ghost codeOffset: nat,
                          results: PrologInfo, initial: array<Rule>, ghost stack: seq<Row>)
    returns (r: Progress, q: nat)
    requires p <= end <= |mem| && op in {0x05, 0x11, 0x14, 0x15, 0x2F}
    requires Ready(c, results, initial, stack)
    modifies results, results.savedRegisters, initial
    ensures Executes(SavedAtOffset(c, mem, op, p, end), old(results.At(initial, stack, codeOffset)), initial.Length,
                     r, q, results.At(initial, stack, codeOffset))
  {
    r, q := Going, p;
    var reg := GetUnsigned(mem, q, end);
    if reg.Abort? { return Aborted, q; }
    q := reg.next;
    if op != 0x05 && reg.value > c.maxRegister { return GaveUp, q; }
    var offset;
    if op in {0x11, 0x15} {
      var number := GetSigned(mem, q, end);
      if number.Abort? { return Aborted, q; }
      q := number.next;
      offset := ToInt64(number.value * c.dataAlign);
    } else {
      var number := GetUnsigned(mem, q, end);
      if number.Abort? { return Aborted, q; }
      q := number.next;
      offset := ToInt64(number.value * c.dataAlign);
    }
    if reg.value > c.maxRegister { return GaveUp, q; }
    if op == 0x2F { offset := ToInt64(-offset); }
    var place := if op in {0x14, 0x15} then OffsetFromCfa else InCfa;
    results.SetRegister(reg.value, place, offset, initial, stack, codeOffset);
  }

  method RunSavedElsewhere(c: Cie, mem: seq<byte>, op: byte, p: nat, end: nat, ghost codeOffset: nat,
                           results: PrologInfo, initial: array<Rule>, ghost stack: seq<Row>)
    returns (r: Progress, q: nat)
    requires p <= end <= |mem| && op in {0x06, 0x07, 0x08, 0x09, 0x10, 0x16}
    requires Ready(c, results, initial, stack)
    modifies results, results.savedRegisters, initial
    ensures Executes(SavedElsewhere(c, mem, op, p, end), old(results.At(initial, stack, codeOffset)), initial.Length,
                     r, q, results.At(initial, stack, codeOffset))
  {
    r, q := Going, p;
    var reg := GetUnsigned(mem, q, end);
    if reg.Abort? { return Aborted, q; }
    q := reg.next;
    if op == 0x09 {
      var reg2 := GetUnsigned(mem, q, end);
      if reg2.Abort? { return Aborted, q; }
      q := reg2.next;
      if reg.value > c.maxRegister || reg2.value > c.maxRegister { return GaveUp, q; }
      results.SetRegister(reg.value, InRegister, ToInt64(reg2.value), initial, stack, codeOffset);
      return;
    }
    if reg.value > c.maxRegister { return GaveUp, q; }
    if op == 0x06 {
      results.RestoreRegisterToInitialState(reg.value, initial, stack, codeOffset);
    } else if op == 0x07 {
      results.SetRegisterLocation(reg.value, Undefined, initial, stack, codeOffset);
    } else if op == 0x08 {
      results.SetRegisterLocation(reg.value, Unused, initial, stack, codeOffset);
    } else {
      var place := if op == 0x10 then AtExpression else IsExpression;
      results.SetRegister(reg.value, place, ToInt64(q), initial, stack, codeOffset);
      r, q := SkipBlock(mem, q, end);
    }
  }

  /** Skips a block that starts with its length. */
  method SkipBlock(mem: seq<byte>, p: nat, end: nat) returns (r: Progress, q: nat)
    requires p <= end <= |mem|
    ensures match Block(mem, p, end) case Abort => r == Aborted case Value(_, next) => r == Going && q == next
  {
    r, q := Aborted, p;
    var length := GetUnsigned(mem, p, end);
    if length.Value? && length.next + length.value < TWO64 {
      r, q := Going, length.next + length.value;
    }
  }

  /** An instruction about the frame's address, which leaves everything else alone. */
  ghost predicate Frames(d: Decoded<Instr>, row: Row, r: Progress, q: nat, row': Row) {
    match d
    case Abort => r == Aborted
    case Value(Malformed, _) => r == GaveUp
    case Value(i, next) => r == Going && q == next && row' == Framed(i, row)
  }

  method RunFrame(c: Cie, mem: seq<byte>, op: byte, p: nat, end: nat, results: PrologInfo)
    returns (r: Progress, q: nat)
    requires p <= end <= |mem| && op in {0x0C, 0x0D, 0x0E, 0x0F, 0x12, 0x13, 0x2E}
    modifies results
    ensures Frames(Frame(c, mem, op, p, end), old(results.View()), r, q, results.View())
  {
    r, q := Going, p;
    if op == 0x13 {
      var number := GetSigned(mem, q, end);
      if number.Abort? { return Aborted, q; }
      results.cfaRegisterOffset := ToInt32(ToInt64(number.value * c.dataAlign));
      return Going, number.next;
    }
    if op == 0x0F {
      results.cfaRegister := 0;
      results.cfaExpression := ToInt64(q);
      r, q := SkipBlock(mem, q, end);
      return;
    }
    var first := GetUnsigned(mem, q, end);
    if first.Abort? { return Aborted, q; }
    q := first.next;
    if op == 0x0E {
      results.cfaRegisterOffset := ToInt32(first.value);
    } else if op == 0x2E {
      results.spExtraArgSize := first.value % TWO32;
    } else if op == 0x0D {
      if first.value > c.maxRegister { return GaveUp, q; }
      results.cfaRegister := first.value;
    } else {
      r, q := RunDefCfa(c, mem, op, first.value, q, end, results);
    }
  }

  /** The second operand of the two instructions that define register and offset. */
  method RunDefCfa(c: Cie, mem: seq<byte>, op: byte, reg: nat, p: nat, end: nat, results: PrologInfo)
    returns (r: Progress, q: nat)
    requires p <= end <= |mem| && op in {0x0C, 0x12}
    modifies results
    ensures var unsigned, signed := DecodeUnsigned(mem, p, end), DecodeSigned(mem, p, end);
            if op == 0x0C then
              if unsigned.Abort? then r == Aborted
              else if reg > c.maxRegister then r == GaveUp
              else r == Going && q == unsigned.next &&
                   results.View() == old(results.View()).(cfaRegister := reg, cfaOffset := ToInt32(ToInt64(unsigned.value)))
            else
              if signed.Abort? then r == Aborted
              else if reg > c.maxRegister then r == GaveUp
              else r == Going && q == signed.next &&
                   results.View() == old(results.View()).(cfaRegister := reg, cfaOffset := ToInt32(ToInt64(signed.value * c.dataAlign)))
  {
    r, q := Going, p;
    var offset;
    if op == 0x0C {
      var number := GetUnsigned(mem, p, end);
      if number.Abort? { return Aborted, q; }
      q := number.next;
      offset := ToInt64(number.value);
    } else {
      var number := GetSigned(mem, p, end);
      if number.Abort? { return Aborted, q; }
      q := number.next;
      offset := ToInt64(number.value * c.dataAlign);
    }
    if reg > c.maxRegister { return GaveUp, q; }
    results.cfaRegister := reg;
    results.cfaRegisterOffset := ToInt32(offset);
  }

  method RunOther(c: Cie, op: byte, p: nat, codeOffset: nat, remembered: seq<Row>, results: PrologInfo, initial: array<Rule>)
    returns (r: Progress, q: nat, offset: nat, stack: seq<Row>)
    requires Ready(c, results, initial, remembered)
    modifies results, results.savedRegisters
    ensures Executes(Other(c, op, p), old(results.At(initial, remembered, codeOffset)), initial.Length,
                     r, q, results.At(initial, stack, offset))
  {
    r, q, offset, stack := Going, p, codeOffset, remembered;
    if op == 0x01 {
      var address := c.pointer(q);
      if address.Abort? { return Aborted, q, offset, stack; }
      offset := address.value;
      q := address.next;
    } else if op == 0x0A {
      var row := results.Copy();
      stack := stack + [row];
    } else if op == 0x0B {
      if stack == [] { return GaveUp, q, offset, stack; }
      results.Assign(stack[|stack| - 1]);
      stack := stack[..|stack| - 1];
    } else if op != 0x00 {
      r := GaveUp;
    }
  }

  /** One instruction. */
  method Step(c: Cie, mem: seq<byte>, p: nat, end: nat, codeOffset: nat, remembered: seq<Row>,
              results: PrologInfo, initial: array<Rule>)
    returns (r: Progress, q: nat, offset: nat, stack: seq<Row>)
    requires p < end <= |mem| && Ready(c, results, initial, remembered)
    modifies results, results.savedRegisters, initial
    ensures Executes(Decode(c, mem, p, end), old(results.At(initial, remembered, codeOffset)), initial.Length,
                     r, q, results.At(initial, stack, offset))
    ensures r == Going ==> StackSized(stack, initial.Length)
  {
    var op := mem[p];
    r, q, offset, stack := Going, p + 1, codeOffset, remembered;
    if op >= 0x40 || op in {0x02, 0x03, 0x04} {
      r, q, offset := RunPrimary(c, mem, op, q, end, offset, results, initial, stack);
    } else if op in {0x05, 0x11, 0x14, 0x15, 0x2F} {
      r, q := RunSavedAtOffset(c, mem, op, q, end, offset, results, initial, stack);
    } else if op in {0x06, 0x07, 0x08, 0x09, 0x10, 0x16} {
      r, q := RunSavedElsewhere(c, mem, op, q, end, offset, results, initial, stack);
    } else if op in {0x0C, 0x0D, 0x0E, 0x0F, 0x12, 0x13, 0x2E} {
      r, q := RunFrame(c, mem, op, q, end, results);
    } else {
      r, q, offset, stack := RunOther(c, op, q, offset, stack, results, initial);
    }
  }

  /** A run that ends in `r`, where it goes on in `t`. */
  ghost predicate Ends(run: Outcome, r: Progress, t: State) {
    match run
    case Done(u) => r == Going && t == u
    case Failed => r == GaveUp
    case Stopped => r == Aborted
  }

  /** One stream, from `start` on, until its end or until the location is reached. */
  method RunStream(c: Cie, mem: seq<byte>, start: nat, end: nat, pcOffset: nat, remembered: seq<Row>,
                   results: PrologInfo, initial: array<Rule>)
    returns (r: Progress, ghost codeOffset: nat, stack: seq<Row>)
    requires end <= |mem| && Ready(c, results, initial, remembered)
    modifies results, results.savedRegisters, initial
    ensures AllInRange(Program(c, mem, start, end), initial.Length)
    ensures Ends(Run(Program(c, mem, start, end), pcOffset, old(results.At(initial, remembered, 0)), initial.Length),
                 r, results.At(initial, stack, codeOffset))
    ensures r == Going ==> StackSized(stack, initial.Length)
  {
    ghost var n := initial.Length;
    ghost var whole := old(results.At(initial, remembered, 0));
    ProgramInRange(c, mem, start, end);
    var p: nat, offset: nat := start, 0;
    r, stack := Going, remembered;
    while p < end && offset < pcOffset
      invariant r == Going && StackSized(stack, n)
      invariant AllInRange(Program(c, mem, p, end), n)
      invariant Run(Program(c, mem, p, end), pcOffset, results.At(initial, stack, offset), n) ==
                Run(Program(c, mem, start, end), pcOffset, whole, n)
      decreases end - p
    {
      ghost var prog, s := Program(c, mem, p, end), results.At(initial, stack, offset);
      ProgramGoesOn(c, mem, p, end);
      r, p, offset, stack := Step(c, mem, p, end, offset, stack, results, initial);
      if r != Going {
        codeOffset := offset;
        return;
      }
    }
    codeOffset := offset;
  }

  lemma ProgramGoesOn(c: Cie, mem: seq<byte>, p: nat, end: nat)
    requires p < end <= |mem|
    ensures var d, prog := Decode(c, mem, p, end), Program(c, mem, p, end);
            && prog != [] && prog[0] == (if d.Value? then d.value else Stop)
            && AllInRange(prog, c.maxRegister + 1)
            && (d.Value? && !d.value.Malformed? ==>
                  prog[1..] == Program(c, mem, d.next, end) && AllInRange(prog[1..], c.maxRegister + 1))
  {
    ProgramInRange(c, mem, p, end);
    var d := Decode(c, mem, p, end);
    if d.Value? && !d.value.Malformed? {
      assert Program(c, mem, p, end) == [d.value] + Program(c, mem, d.next, end);
    }
  }

  /**
   The instructions of a frame: the CIE's to their end, then the FDE's up to
   the location. Each stream gets a new place for captured rules, which holds
   whatever memory held; the stack of remembered descriptions goes on.
   */
  method ParseFDEInstructions(c: Cie, mem: seq<byte>, cie: nat, cieEnd: nat, fde: nat, fdeEnd: nat, pcOffset: nat, results: PrologInfo)
    returns (r: Progress, ghost garbage: seq<Rule>, ghost garbage': seq<Rule>)
    requires cieEnd <= |mem| && fdeEnd <= |mem| && results.savedRegisters.Length == c.maxRegister + 1
    modifies results, results.savedRegisters
    ensures |garbage| == |garbage'| == c.maxRegister + 1
    ensures AllInRange(Program(c, mem, cie, cieEnd), c.maxRegister + 1) && AllInRange(Program(c, mem, fde, fdeEnd), c.maxRegister + 1)
    ensures match RunBoth(Program(c, mem, cie, cieEnd), Program(c, mem, fde, fdeEnd), pcOffset,
                          old(results.View()), garbage, garbage', c.maxRegister + 1)
            case Done(t) => r == Going && results.View() == t.row
            case Failed => r == GaveUp
            case Stopped => r == Aborted
  {
    ProgramInRange(c, mem, cie, cieEnd);
    ProgramInRange(c, mem, fde, fdeEnd);
    var initial := new Rule[c.maxRegister + 1];
    garbage, garbage' := initial[..], initial[..];
    ghost var offset;
    var stack;
    r, offset, stack := RunStream(c, mem, cie, cieEnd, WHOLE, [], results, initial);
    if r != Going { return; }
    var initial' := new Rule[c.maxRegister + 1];
    garbage' := initial'[..];
    r, offset, stack := RunStream(c, mem, fde, fdeEnd, pcOffset, stack, results, initial');
  }
}
