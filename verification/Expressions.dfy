/**
 DWARF expressions (section 2.5.1 of DWARF 3) as the evaluator runs them: a
 stack of 64-bit words over bytes. Slot 0 of the 100 is never used.
 */
module Expressions {
  import opened AddressSpace
  import opened Leb128
  import opened Words

  /** The top of the stack, or: the program stopped, did something C++ leaves undefined, or has not ended yet. */
  datatype Outcome = Result(value: word64) | Stopped | Undefined | Running

  /** An instruction goes on at `p`, or ends the evaluation. */
  datatype Next = Go(p: nat, stack: seq<word64>) | End(outcome: Outcome)

  const SLOTS: nat := 99

  /** A number of `size` bytes as a signed one. */
  function SignExtend(v: nat, size: nat): word64 {
    Wrap64(if v >= Pow2(8 * size) / 2 then v - Pow2(8 * size) else v)
  }

  datatype BitOp = And | Or | Xor

  function Bit(op: BitOp, a: nat, b: nat): (r: nat)
    requires a < 2 && b < 2
    ensures r < 2
  {
    match op
    case And => if a + b == 2 then 1 else 0
    case Or => if a + b == 0 then 0 else 1
    case Xor => if a == b then 0 else 1
  }

  /** Bit by bit. */
  function Bits(op: BitOp, a: nat, b: nat): nat {
    if a == 0 && b == 0 then 0 else 2 * Bits(op, a / 2, b / 2) + Bit(op, a % 2, b % 2)
  }

  lemma {:induction false} BitsBound(op: BitOp, a: nat, b: nat, n: nat)
    requires a < Pow2(n) && b < Pow2(n)
    ensures Bits(op, a, b) < Pow2(n)
  {
    if n > 0 && (a > 0 || b > 0) { BitsBound(op, a / 2, b / 2, n - 1); }
  }

  lemma WordPower()
    ensures Pow2(8) == 0x100 && Pow2(16) == 0x1_0000 && Pow2(64) == TWO64
  {
    assert Pow2(4) == 16;
    PowerAdds(4, 4);
    PowerAdds(8, 8);
    PowerAdds(16, 16);
    PowerAdds(32, 32);
  }

  function BitWord(op: BitOp, a: word64, b: word64): word64 {
    WordPower();
    BitsBound(op, a, b, 64);
    Bits(op, a, b)
  }

  /** C++'s division truncates toward zero. */
  function Quotient(a: int, b: int): int
    requires b != 0
  {
    if (a < 0) == (b < 0) then Abs(a) / Abs(b) else -(Abs(a) / Abs(b))
  }

  function Remainder(a: int, b: int): int
    requires b != 0
  {
    a - Quotient(a, b) * b
  }

  function Abs(a: int): nat { if a < 0 then -a else a }

  // ---------- Instructions ----------

  /** The end of what an operand may use of memory. */
  function Limit(mem: seq<byte>, end: nat): (r: nat)
    ensures r <= |mem| && r <= end
  {
    if end <= |mem| then end else |mem|
  }

  /** Sizes of the constants and of the address, by opcode. */
  function FixedSize(op: byte): nat
    requires op == 0x03 || 0x08 <= op <= 0x0F
  {
    if op == 0x08 || op == 0x09 then 1
    else if op == 0x0A || op == 0x0B then 2
    else if op == 0x0C || op == 0x0D then 4
    else 8
  }

  function Register(regs: map<nat, word64>, reg: nat, p: nat): Decoded<word64> {
    if reg in regs then Value(regs[reg], p) else Abort
  }

  predicate IsPush(op: byte) { op == 0x03 || 0x08 <= op <= 0x11 || 0x30 <= op <= 0x90 || op == 0x92 }

  /** What an instruction pushes, and where it ends. */
  function Operand(mem: seq<byte>, regs: map<nat, word64>, op: byte, p: nat, end: nat): Decoded<word64>
    requires p <= end <= |mem| && IsPush(op)
  {
    if op == 0x03 || 0x08 <= op <= 0x0F then
      var v :- Fixed(mem, p, FixedSize(op));
      if op in {0x09, 0x0B, 0x0D} then Value(SignExtend(v.value, FixedSize(op)), v.next) else Value(Wrap64(v.value), v.next)
    else if op == 0x10 then
      var v :- DecodeUnsigned(mem, p, end);
      Value(Wrap64(v.value), v.next)
    else if op == 0x11 then
      var v :- DecodeSigned(mem, p, end);
      Value(Wrap64(v.value), v.next)
    else if op < 0x50 then Value(op - 0x30, p)
    else if op < 0x70 then Register(regs, op - 0x50, p)
    else if op < 0x90 then BaseRegister(mem, regs, op - 0x70, p, end)
    else
      var reg :- DecodeUnsigned(mem, p, end);
      var number := reg.value % 0x1_0000_0000;
      if op == 0x90 then Register(regs, number, reg.next) else BaseRegister(mem, regs, number, reg.next, end)
  }

  function BaseRegister(mem: seq<byte>, regs: map<nat, word64>, reg: nat, p: nat, end: nat): Decoded<word64>
    requires p <= end <= |mem|
  {
    var offset :- DecodeSigned(mem, p, end);
    var base :- Register(regs, reg, offset.next);
    Value(Wrap64(offset.value + base.value), offset.next)
  }

  predicate IsUnary(op: byte) { op in {0x06, 0x19, 0x1F, 0x20, 0x23, 0x94} }

  /** Instructions that replace the top of the stack. */
  function Unary(mem: seq<byte>, op: byte, p: nat, end: nat, a: word64): Decoded<word64>
    requires p <= end <= |mem| && IsUnary(op)
  {
    if op == 0x06 then
      var v :- Fixed(mem, a, 8);
      Value(Wrap64(v.value), p)
    else if op == 0x19 then Value(if ToInt64(a) < 0 then Wrap64(-ToInt64(a)) else a, p)
    else if op == 0x1F then Value(Wrap64(0 - a), p)
    else if op == 0x20 then Value(Wrap64(-ToInt64(a) - 1), p)
    else if op == 0x23 then
      var v :- DecodeUnsigned(mem, p, end);
      Value(Wrap64(a + v.value), v.next)
    else
      var size :- Fixed(mem, p, 1);
      if size.value !in {1, 2, 4, 8} then Abort
      else
        var v :- Fixed(mem, a, size.value);
        Value(Wrap64(v.value), size.next)
  }

  predicate IsBinary(op: byte) { (0x18 <= op <= 0x27 && op !in {0x19, 0x1F, 0x20, 0x23}) || 0x29 <= op <= 0x2E }

  function Flag(b: bool): word64 { if b then 1 else 0 }

  /** Instructions that replace the two topmost words, the second `a` and the top `b`. */
  function Binary(mem: seq<byte>, op: byte, a: word64, b: word64): Outcome
    requires IsBinary(op)
  {
    if op >= 0x29 then Result(Flag(Compare(op, a, b)))
    else if op in {0x1B, 0x1D} then Division(op, a, b)
    else if op in {0x24, 0x25, 0x26} then Shift(op, a, b)
    else if op == 0x18 then match Fixed(mem, b, 8) case Value(v, _) => Result(Wrap64(v)) case Abort => Stopped
    else if op == 0x1A then Result(BitWord(And, a, b))
    else if op == 0x21 then Result(BitWord(Or, a, b))
    else if op == 0x27 then Result(BitWord(Xor, a, b))
    else if op == 0x1C then Result(Wrap64(a - b))
    else if op == 0x1E then Result(Wrap64(ToInt64(a) * ToInt64(b)))
    else Result(Wrap64(a + b))
  }

  /** Comparisons of unsigned words. */
  predicate Compare(op: byte, a: word64, b: word64)
    requires 0x29 <= op <= 0x2E
  {
    match op
    case 0x29 => a == b
    case 0x2A => a >= b
    case 0x2B => a > b
    case 0x2C => a <= b
    case 0x2D => a < b
    case _ => a != b
  }

  /** By zero, and the one that overflows, have no meaning. */
  function Division(op: byte, a: word64, b: word64): Outcome {
    var x, y := ToInt64(a), ToInt64(b);
    if y == 0 || (x == -TWO63 && y == -1) then Undefined
    else if op == 0x1B then Result(Wrap64(Quotient(x, y))) else Result(Wrap64(Remainder(x, y)))
  }

  /** By 64 or more have no meaning. */
  function Shift(op: byte, a: word64, b: word64): Outcome {
    if b >= 64 then Undefined
    else if op == 0x24 then Result(Wrap64(a * Pow2(b)))
    else if op == 0x25 then Result(Wrap64(a / Pow2(b)))
    else Result(Wrap64(ToInt64(a) / Pow2(b)))
  }

  function Top(stack: seq<word64>): word64
    requires stack != []
  {
    stack[|stack| - 1]
  }

  function Push(p: nat, stack: seq<word64>, v: word64): Next {
    if |stack| < SLOTS then Go(p, stack + [v]) else End(Undefined)
  }

  /** Instructions that move words on the stack. */
  function Shuffle(mem: seq<byte>, op: byte, p: nat, stack: seq<word64>): Next
    requires 0x12 <= op <= 0x17
  {
    var n := |stack|;
    if op == 0x15 then
      match Fixed(mem, p, 1)
      case Abort => End(Stopped)
      case Value(k, q) => if k < n then Push(q, stack, stack[n - 1 - k]) else End(Undefined)
    else if n == 0 then End(Undefined)
    else if op == 0x12 then Push(p, stack, Top(stack))
    else if op == 0x13 then Go(p, stack[..n - 1])
    else if n == 1 then End(Undefined)
    else if op == 0x14 then Push(p, stack, stack[n - 2])
    else if op == 0x16 then Go(p, stack[..n - 2] + [stack[n - 1], stack[n - 2]])
    else if n == 2 then End(Undefined)
    else Go(p, stack[..n - 3] + [stack[n - 1], stack[n - 3], stack[n - 2]])
  }

  /** Jumps by a signed 16-bit number. */
  function Jump(mem: seq<byte>, op: byte, p: nat, stack: seq<word64>): Next {
    match Fixed(mem, p, 2)
    case Abort => End(Stopped)
    case Value(v, q) =>
      var target := Wrap64(q + SignExtend(v, 2));
      if op == 0x2F then Go(target, stack)
      else if stack == [] then End(Undefined)
      else Go(if Top(stack) != 0 then target else q, stack[..|stack| - 1])
  }

  function Step(mem: seq<byte>, regs: map<nat, word64>, p: nat, end: nat, stack: seq<word64>): Next
    requires p < end
  {
    if p >= |mem| then End(Stopped)
    else
      var op, q, n := mem[p], p + 1, |stack|;
      if IsPush(op) then
        match Operand(mem, regs, op, q, Limit(mem, end))
        case Value(v, next) => Push(next, stack, v)
        case Abort => End(Stopped)
      else if IsUnary(op) then
        if n == 0 then End(Undefined)
        else match Unary(mem, op, q, Limit(mem, end), Top(stack))
          case Value(v, next) => Go(next, stack[..n - 1] + [v])
          case Abort => End(Stopped)
      else if IsBinary(op) then
        if n < 2 then End(Undefined)
        else match Binary(mem, op, stack[n - 2], Top(stack))
          case Result(v) => Go(q, stack[..n - 2] + [v])
          case o => End(o)
      else if 0x12 <= op <= 0x17 then Shuffle(mem, op, q, stack)
      else if op == 0x28 || op == 0x2F then Jump(mem, op, q, stack)
      else End(Stopped)
  }

  /** What the instruction at an address does to a stack. */
  type Machine = (nat, seq<word64>) -> Next

  function MachineOf(mem: seq<byte>, regs: map<nat, word64>, end: nat): Machine {
    (p: nat, stack: seq<word64>) => if p < end then Step(mem, regs, p, end, stack) else End(Stopped)
  }

  /** At most `fuel` instructions; jumps may go back for ever. */
  function Run(m: Machine, p: nat, end: nat, stack: seq<word64>, fuel: nat): Outcome
    decreases fuel, 1
  {
    if p >= end then (if stack == [] then Undefined else Result(Top(stack)))
    else if fuel == 0 then Running
    else After(m(p, stack), m, end, fuel - 1)
  }

  /** The rest of a run, after an instruction. */
  function After(next: Next, m: Machine, end: nat, fuel: nat): Outcome
    decreases fuel, 2
  {
    match next
    case Go(p, stack) => Run(m, p, end, stack, fuel)
    case End(o) => o
  }

  /** An expression starts with its length, of at most 20 bytes. */
  function Evaluate(mem: seq<byte>, regs: map<nat, word64>, expression: nat, initial: word64, fuel: nat): Outcome {
    if expression > |mem| then Stopped
    else match DecodeUnsigned(mem, expression, Limit(mem, expression + 20))
      case Abort => Stopped
      case Value(length, p) =>
        var end := Wrap64(p + length);
        Run(MachineOf(mem, regs, end), p, end, [initial], fuel)
  }
}
