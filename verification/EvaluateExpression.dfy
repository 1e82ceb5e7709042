/**
 The loop that evaluates a DWARF expression on an array of 100 slots, of which
 slot 0 is never written. `sp` is the index of the top.
 */
module EvaluateExpression {
  import opened AddressSpace
  import opened Expressions
  import opened Leb128
  import opened Words

  /** The words in use. */
  ghost function InUse(stack: array<word64>, sp: int): seq<word64>
    requires stack.Length == SLOTS + 1 && 0 <= sp <= SLOTS
    reads stack
  {
    stack[1..sp + 1]
  }

  /** What one instruction has done: gone on with `next`, or ended the evaluation. */
  ghost predicate Did(next: Next, ending: Outcome, p: nat, stack: seq<word64>) {
    match next
    case Go(q, s) => ending == Running && p == q && stack == s
    case End(o) => ending == o && o != Running
  }

  method PushWord(v: word64, p: nat, stack: array<word64>, sp: nat) returns (ending: Outcome, sp': nat)
    requires stack.Length == SLOTS + 1 && sp <= SLOTS
    modifies stack
    ensures sp' <= SLOTS && Did(Push(p, old(InUse(stack, sp)), v), ending, p, InUse(stack, sp'))
  {
    if sp == SLOTS { return Undefined, sp; }
    sp' := sp + 1;
    stack[sp'] := v;
    ending := Running;
    assert InUse(stack, sp') == old(InUse(stack, sp)) + [v];
  }

  /** Decodes the operand of an instruction that pushes. */
  method GetOperand(mem: seq<byte>, regs: map<nat, word64>, op: byte, p: nat, end: nat) returns (v: Decoded<word64>)
    requires p <= end <= |mem| && IsPush(op)
    ensures v == Operand(mem, regs, op, p, end)
  {
    if op == 0x03 || 0x08 <= op <= 0x0F {
      var size := FixedSize(op);
      var number := Fixed(mem, p, size);
      if number.Abort? { return Abort; }
      var signed := op in {0x09, 0x0B, 0x0D};
      return Value(if signed then SignExtend(number.value, size) else Wrap64(number.value), number.next);
    } else if op == 0x10 {
      var number := GetUnsigned(mem, p, end);
      if number.Abort? { return Abort; }
      return Value(Wrap64(number.value), number.next);
    } else if op == 0x11 {
      var number := GetSigned(mem, p, end);
      if number.Abort? { return Abort; }
      return Value(Wrap64(number.value), number.next);
    } else if op < 0x50 {
      return Value(op - 0x30, p);
    } else if op < 0x70 {
      return Register(regs, op - 0x50, p);
    } else if op < 0x90 {
      v := GetBaseRegister(mem, regs, op - 0x70, p, end);
    } else {
      var reg := GetUnsigned(mem, p, end);
      if reg.Abort? { return Abort; }
      var number := reg.value % 0x1_0000_0000;
      if op == 0x90 { return Register(regs, number, reg.next); }
      v := GetBaseRegister(mem, regs, number, reg.next, end);
    }
  }

  method GetBaseRegister(mem: seq<byte>, regs: map<nat, word64>, reg: nat, p: nat, end: nat) returns (v: Decoded<word64>)
    requires p <= end <= |mem|
    ensures v == BaseRegister(mem, regs, reg, p, end)
  {
    var offset := GetSigned(mem, p, end);
    if offset.Abort? { return Abort; }
    if reg !in regs { return Abort; }
    v := Value(Wrap64(offset.value + regs[reg]), offset.next);
  }

  /** Works on the top in place. */
  method ChangeTop(mem: seq<byte>, op: byte, p: nat, end: nat, stack: array<word64>, sp: nat) returns (ending: Outcome, q: nat)
    requires stack.Length == SLOTS + 1 && 0 < sp <= SLOTS && p <= end <= |mem| && IsUnary(op)
    modifies stack
    ensures InUse(stack, sp)[..sp - 1] == old(InUse(stack, sp))[..sp - 1]
    ensures match Unary(mem, op, p, end, old(InUse(stack, sp))[sp - 1])
            case Value(v, next) => ending == Running && q == next && InUse(stack, sp)[sp - 1] == v
            case Abort => ending == Stopped
  {
    ending, q := Running, p;
    assert InUse(stack, sp)[sp - 1] == stack[sp];
    if op == 0x06 {
      var value := Fixed(mem, stack[sp], 8);
      if value.Abort? { return Stopped, q; }
      stack[sp] := Wrap64(value.value);
    } else if op == 0x19 {
      if ToInt64(stack[sp]) < 0 { stack[sp] := Wrap64(-ToInt64(stack[sp])); }
    } else if op == 0x1F {
      var value: int := stack[sp];
      stack[sp] := Wrap64(0 - value);
    } else if op == 0x20 {
      stack[sp] := Wrap64(-ToInt64(stack[sp]) - 1);
    } else if op == 0x23 {
      var number := GetUnsigned(mem, p, end);
      if number.Abort? { return Stopped, q; }
      stack[sp] := Wrap64(stack[sp] + number.value);
      q := number.next;
    } else {
      var size := Fixed(mem, p, 1);
      if size.Abort? { return Stopped, q; }
      if size.value !in {1, 2, 4, 8} { return Stopped, q; }
      var value := Fixed(mem, stack[sp], size.value);
      if value.Abort? { return Stopped, q; }
      stack[sp] := Wrap64(value.value);
      q := size.next;
    }
    assert InUse(stack, sp)[sp - 1] == stack[sp];
  }

  /** Pops the top and works on the second in place. */
  method CombineTop(mem: seq<byte>, op: byte, stack: array<word64>, sp: nat) returns (ending: Outcome)
    requires stack.Length == SLOTS + 1 && 2 <= sp <= SLOTS && IsBinary(op)
    modifies stack
    ensures InUse(stack, sp - 1)[..sp - 2] == old(InUse(stack, sp))[..sp - 2]
    ensures match Binary(mem, op, old(InUse(stack, sp))[sp - 2], old(InUse(stack, sp))[sp - 1])
            case Result(v) => ending == Running && InUse(stack, sp - 1)[sp - 2] == v
            case o => ending == o
  {
    assert InUse(stack, sp)[sp - 2] == stack[sp - 1] && InUse(stack, sp)[sp - 1] == stack[sp];
    var value := stack[sp];
    var o := Binary(mem, op, stack[sp - 1], value);
    if !o.Result? { return o; }
    stack[sp - 1] := o.value;
    ending := Running;
  }

  method MoveWords(mem: seq<byte>, op: byte, p: nat, stack: array<word64>, sp: nat) returns (ending: Outcome, q: nat, sp': nat)
    requires stack.Length == SLOTS + 1 && sp <= SLOTS && 0x12 <= op <= 0x17
    modifies stack
    ensures sp' <= SLOTS && Did(Shuffle(mem, op, p, old(InUse(stack, sp))), ending, q, InUse(stack, sp'))
  {
    ending, q, sp' := Running, p, sp;
    if op == 0x15 {
      var k := Fixed(mem, p, 1);
      if k.Abort? { return Stopped, q, sp'; }
      q := k.next;
      if k.value >= sp { return Undefined, q, sp'; }
      ending, sp' := PushWord(stack[sp - k.value], q, stack, sp);
    } else if sp == 0 {
      ending := Undefined;
    } else if op == 0x12 {
      ending, sp' := PushWord(stack[sp], q, stack, sp);
    } else if op == 0x13 {
      sp' := sp - 1;
      assert InUse(stack, sp') == old(InUse(stack, sp))[..sp - 1];
    } else {
      ending, sp' := MoveTop(mem, op, q, stack, sp);
    }
  }

  method MoveTop(mem: seq<byte>, op: byte, p: nat, stack: array<word64>, sp: nat) returns (ending: Outcome, sp': nat)
    requires stack.Length == SLOTS + 1 && 0 < sp <= SLOTS && op in {0x14, 0x16, 0x17}
    modifies stack
    ensures sp' <= SLOTS && Did(Shuffle(mem, op, p, old(InUse(stack, sp))), ending, p, InUse(stack, sp'))
  {
    ending, sp' := Running, sp;
    ghost var s := InUse(stack, sp);
    if sp == 1 { return Undefined, sp'; }
    assert s[sp - 1] == stack[sp] && s[sp - 2] == stack[sp - 1];
    if op == 0x14 {
      ending, sp' := PushWord(stack[sp - 1], p, stack, sp);
    } else if op == 0x16 {
      stack[sp], stack[sp - 1] := stack[sp - 1], stack[sp];
      assert InUse(stack, sp) == s[..sp - 2] + [s[sp - 1], s[sp - 2]];
    } else if sp == 2 {
      ending := Undefined;
    } else {
      Rotate(stack, sp);
    }
  }

  /** The top goes below the two words under it. */
  method Rotate(stack: array<word64>, sp: nat)
    requires stack.Length == SLOTS + 1 && 3 <= sp <= SLOTS
    modifies stack
    ensures var s := old(InUse(stack, sp)); InUse(stack, sp) == s[..sp - 3] + [s[sp - 1], s[sp - 3], s[sp - 2]]
  {
    ghost var s := InUse(stack, sp);
    assert s[sp - 1] == stack[sp] && s[sp - 2] == stack[sp - 1] && s[sp - 3] == stack[sp - 2];
    var value := stack[sp];
    stack[sp] := stack[sp - 1];
    stack[sp - 1] := stack[sp - 2];
    stack[sp - 2] := value;
  }

  method DoJump(mem: seq<byte>, op: byte, p: nat, stack: array<word64>, sp: nat) returns (ending: Outcome, q: nat, sp': nat)
    requires stack.Length == SLOTS + 1 && sp <= SLOTS
    ensures sp' <= SLOTS && Did(Jump(mem, op, p, InUse(stack, sp)), ending, q, InUse(stack, sp'))
  {
    ending, q, sp' := Running, p, sp;
    var number := Fixed(mem, p, 2);
    if number.Abort? { return Stopped, q, sp'; }
    q := number.next;
    if op == 0x2F {
      q := Wrap64(q + SignExtend(number.value, 2));
    } else {
      if sp == 0 { return Undefined, q, sp'; }
      sp' := sp - 1;
      if stack[sp] != 0 { q := Wrap64(q + SignExtend(number.value, 2)); }
      assert InUse(stack, sp') == InUse(stack, sp)[..sp - 1];
    }
  }

  /** An instruction that pushes. */
  method DoPush(mem: seq<byte>, regs: map<nat, word64>, p: nat, end: nat, stack: array<word64>, sp: nat)
    returns (ending: Outcome, q: nat, sp': nat)
    requires stack.Length == SLOTS + 1 && sp <= SLOTS && p < end && p < |mem| && IsPush(mem[p])
    modifies stack
    ensures sp' <= SLOTS && Did(Step(mem, regs, p, end, old(InUse(stack, sp))), ending, q, InUse(stack, sp'))
  {
    var v := GetOperand(mem, regs, mem[p], p + 1, Limit(mem, end));
    if v.Abort? { return Stopped, p + 1, sp; }
    q := v.next;
    ending, sp' := PushWord(v.value, q, stack, sp);
  }

  /** An instruction that works on the top. */
  method DoUnary(mem: seq<byte>, regs: map<nat, word64>, p: nat, end: nat, stack: array<word64>, sp: nat)
    returns (ending: Outcome, q: nat)
    requires stack.Length == SLOTS + 1 && sp <= SLOTS && p < end && p < |mem| && IsUnary(mem[p])
    modifies stack
    ensures Did(Step(mem, regs, p, end, old(InUse(stack, sp))), ending, q, InUse(stack, sp))
  {
    if sp == 0 { return Undefined, p + 1; }
    ending, q := ChangeTop(mem, mem[p], p + 1, Limit(mem, end), stack, sp);
    assert ending == Running ==> InUse(stack, sp) == old(InUse(stack, sp))[..sp - 1] + [InUse(stack, sp)[sp - 1]];
  }

  /** An instruction that combines the two topmost words. */
  method DoBinary(mem: seq<byte>, regs: map<nat, word64>, p: nat, end: nat, stack: array<word64>, sp: nat)
    returns (ending: Outcome, sp': nat)
    requires stack.Length == SLOTS + 1 && sp <= SLOTS && p < end && p < |mem| && IsBinary(mem[p]) && !IsUnary(mem[p])
    modifies stack
    ensures sp' <= SLOTS && Did(Step(mem, regs, p, end, old(InUse(stack, sp))), ending, p + 1, InUse(stack, sp'))
  {
    if sp < 2 { return Undefined, sp; }
    ending := CombineTop(mem, mem[p], stack, sp);
    sp' := sp - 1;
    assert ending == Running ==> InUse(stack, sp') == old(InUse(stack, sp))[..sp - 2] + [InUse(stack, sp')[sp - 2]];
  }

  /** One instruction. */
  method DoStep(mem: seq<byte>, regs: map<nat, word64>, p: nat, end: nat, stack: array<word64>, sp: nat)
    returns (ending: Outcome, q: nat, sp': nat)
    requires stack.Length == SLOTS + 1 && sp <= SLOTS && p < end
    modifies stack
    ensures sp' <= SLOTS && Did(Step(mem, regs, p, end, old(InUse(stack, sp))), ending, q, InUse(stack, sp'))
  {
    if p >= |mem| { return Stopped, p, sp; }
    var op := mem[p];
    ending, q, sp' := Running, p + 1, sp;
    if IsPush(op) {
      ending, q, sp' := DoPush(mem, regs, p, end, stack, sp);
    } else if IsUnary(op) {
      ending, q := DoUnary(mem, regs, p, end, stack, sp);
    } else if IsBinary(op) {
      ending, sp' := DoBinary(mem, regs, p, end, stack, sp);
    } else if 0x12 <= op <= 0x17 {
      ending, q, sp' := MoveWords(mem, op, q, stack, sp);
    } else if op == 0x28 || op == 0x2F {
      ending, q, sp' := DoJump(mem, op, q, stack, sp);
    } else {
      ending := Stopped;
    }
  }

  /** Evaluates an expression with at most `fuel` instructions. */
  method Evaluation(mem: seq<byte>, regs: map<nat, word64>, expression: nat, initial: word64, fuel: nat) returns (o: Outcome)
    ensures o == Evaluate(mem, regs, expression, initial, fuel)
  {
    if expression > |mem| { return Stopped; }
    var length := GetUnsigned(mem, expression, Limit(mem, expression + 20));
    if length.Abort? { return Stopped; }
    var p, end := length.next, Wrap64(length.next + length.value);
    var stack := new word64[SLOTS + 1];
    var sp := 1;
    stack[sp] := initial;
    assert InUse(stack, sp) == [initial];
    o := RunLoop(mem, regs, p, end, stack, sp, fuel);
  }

  method RunLoop(mem: seq<byte>, regs: map<nat, word64>, start: nat, end: nat, stack: array<word64>, top: nat, fuel: nat) returns (o: Outcome)
    requires stack.Length == SLOTS + 1 && top <= SLOTS
    modifies stack
    ensures o == Run(MachineOf(mem, regs, end), start, end, old(InUse(stack, top)), fuel)
  {
    ghost var m := MachineOf(mem, regs, end);
    var p: nat, sp: nat, left: nat := start, top, fuel;
    while p < end
      invariant sp <= SLOTS
      invariant Run(m, p, end, InUse(stack, sp), left) == Run(m, start, end, old(InUse(stack, top)), fuel)
      decreases left
    {
      if left == 0 { return Running; }
      ghost var s := InUse(stack, sp);
      assert m(p, s) == Step(mem, regs, p, end, s);
      o, p, sp := DoStep(mem, regs, p, end, stack, sp);
      if o != Running { return; }
      left := left - 1;
    }
    if sp == 0 { return Undefined; }
    o := Result(stack[sp]);
  }
}
